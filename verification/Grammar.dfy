/**
 The wire format as a grammar, apart from any reader (internal/protocol/grammar.go), and
 what the incremental decoder (internal/protocol/decode.go) accepts, waits for and refuses
 by it.
 */
module Grammar {
  import opened Options
  import opened Order
  import opened Decimal
  import opened Resp
  import opened Decoder

  // ----- the grammar -----

  /** What a reader admits: the length of a line with its end, of a bulk string and of an array. */
  datatype Limits = Limits(line: Option<nat>, bulk: int, elements: int)

  /** The decoder has only the limits of a machine word. */
  const MEMORY := Limits(None, MAX_INT, MAX_INT)

  /** A prefix and one line of text. */
  ghost predicate Header(b: Bytes, prefix: byte, text: Bytes, limits: Limits) {
    && b == [prefix] + text + CRLF && LF !in text
    && (limits.line.Some? ==> |text| + 2 <= limits.line.value)
  }

  /** A prefix and one line with a numeral. */
  ghost predicate Numbered(b: Bytes, prefix: byte, n: int, limits: Limits) {
    exists text :: Denotes(text, n) && Header(b, prefix, text, limits)
  }

  /** `b` is the value on the wire, inside `depth` arrays. */
  ghost predicate Wire(v: Value, b: Bytes, depth: nat, limits: Limits)
    decreases v, 1
  {
    match v
    case Simple(text) => Header(b, 43, text, limits)
    case Error(message) => Header(b, 45, message, limits)
    case Integer(n) => Numbered(b, 58, n, limits)
    case Bulk(data) => BulkWire(data, b, limits)
    case NullBulk => Numbered(b, 36, -1, limits)
    case TextBulk(_) => false
    case NullTextBulk => false
    case Array(elements) =>
      && depth < MAX_DEPTH && |elements| <= limits.elements
      && exists head, body ::
           Numbered(head, 42, |elements|, limits) && b == head + body && WireAll(elements, body, depth + 1, limits)
    case NullArray => depth < MAX_DEPTH && Numbered(b, 42, -1, limits)
    case Boolean(flag) => Header(b, 35, [if flag then 116 else 102], limits)
    case Null => Header(b, 95, [], limits)
  }

  /** A bulk string: its length, its bytes and a line end. */
  ghost predicate BulkWire(data: Bytes, b: Bytes, limits: Limits) {
    |data| <= limits.bulk && exists head :: Numbered(head, 36, |data|, limits) && b == head + data + CRLF
  }

  /** Values on the wire one after the other. */
  ghost predicate WireAll(vs: seq<Value>, b: Bytes, depth: nat, limits: Limits)
    decreases vs, 0
  {
    if vs == [] then b == []
    else
      exists k | 0 <= k <= |b| ::
        WireAll(vs[..|vs| - 1], b[..k], depth, limits) && Wire(vs[|vs| - 1], b[k..], depth, limits)
  }

  lemma WireMore(vs: seq<Value>, b: Bytes, v: Value, c: Bytes, depth: nat, limits: Limits)
    requires WireAll(vs, b, depth, limits) && Wire(v, c, depth, limits)
    ensures WireAll(vs + [v], b + c, depth, limits)
  {
    hide Wire;
    assert (vs + [v])[..|vs|] == vs;
    assert (b + c)[..|b|] == b && (b + c)[|b|..] == c;
  }

  lemma WireNone(depth: nat, limits: Limits)
    ensures WireAll([], [], depth, limits)
  {
  }

  // ----- the decoder accepts exactly that -----

  lemma LineHeader(buf: Bytes)
    requires buf != [] && DecodeLine(buf[1..]).Line?
    ensures
      var Line(text, n) := DecodeLine(buf[1..]);
      Header(buf[..1 + n], buf[0], text, MEMORY)
  {
    var Line(text, n) := DecodeLine(buf[1..]);
    LineExactly(buf[1..], text, n);
    assert buf[..1 + n] == [buf[0]] + buf[1..][..n];
  }

  lemma NumberHeader(buf: Bytes, v: int64)
    requires buf != [] && DecodeLine(buf[1..]).Line? && ParseInt(DecodeLine(buf[1..]).text) == Ok(v)
    ensures Numbered(buf[..1 + DecodeLine(buf[1..]).n], buf[0], v, MEMORY)
  {
    hide DecodeLine, Header, Denotes, ParseInt;
    LineHeader(buf);
    ParseIntMeaning(DecodeLine(buf[1..]).text, v);
  }

  /** And back: a header is read as what it says. */
  lemma HeaderDecodes(head: Bytes, prefix: byte, text: Bytes, rest: Bytes, limits: Limits)
    requires Header(head, prefix, text, limits)
    ensures head + rest != [] && (head + rest)[0] == prefix
    ensures DecodeLine((head + rest)[1..]) == Line(text, |head| - 1)
  {
    var buf := head + rest;
    assert buf[1..][..|text| + 2] == text + CRLF;
    LineExactly(buf[1..], text, |text| + 2);
  }

  lemma NumberDecodes(head: Bytes, prefix: byte, n: int, rest: Bytes, limits: Limits) returns (text: Bytes)
    requires Numbered(head, prefix, n, limits)
    ensures head + rest != [] && (head + rest)[0] == prefix
    ensures DecodeLine((head + rest)[1..]) == Line(text, |head| - 1)
    ensures -MAX_ABS <= n <= MAX_INT && ParseInt(text).Ok? && ParseInt(text).value == n
  {
    hide DecodeLine, ParseInt;
    text :| Denotes(text, n) && Header(head, prefix, text, limits);
    HeaderDecodes(head, prefix, text, rest, limits);
    ParseIntMeaning(text, n);
  }

  lemma {:induction false} FramesAreWire(buf: Bytes, depth: nat)
    requires depth <= MAX_DEPTH && Decode(buf, depth).Frame?
    ensures Wire(Decode(buf, depth).value, buf[..Decode(buf, depth).n], depth, MEMORY)
    decreases MAX_DEPTH - depth, 1, 0
  {
    hide ParseInt, Denotes, Header, Numbered, BulkWire, DecodeLine;
    if OneLine(buf[0]) {
      LineHeader(buf);
      if buf[0] == 58 {
        NumberHeader(buf, ParseInt(DecodeLine(buf[1..]).text).value);
      }
    } else if buf[0] == 36 {
      BulkIsWire(buf);
    } else {
      var Line(text, n) := DecodeLine(buf[1..]);
      var count := ParseInt(text).value;
      NumberHeader(buf, count);
      if count >= 0 {
        var head := buf[..1 + n];
        WireNone(depth + 1, MEMORY);
        assert buf[|head|..|head|] == [];
        ElementsAreWire(buf, depth, head, 1 + n, count, []);
      }
    }
  }

  lemma BulkIsWire(buf: Bytes)
    requires buf != [] && buf[0] == 36 && DecodeBulk(buf).Frame?
    ensures DecodeBulk(buf).value.Bulk? || DecodeBulk(buf).value.NullBulk?
    ensures Wire(DecodeBulk(buf).value, buf[..DecodeBulk(buf).n], 0, MEMORY)
  {
    hide ParseInt, Denotes, Header, DecodeLine;
    var Line(text, n) := DecodeLine(buf[1..]);
    var length := ParseInt(text).value;
    NumberHeader(buf, length);
    if length >= 0 {
      var head, rest := buf[..1 + n], buf[1 + n..];
      assert buf[..1 + n + length + 2] == head + rest[..length] + CRLF;
    }
  }

  lemma {:induction false} ElementsAreWire(buf: Bytes, depth: nat, head: Bytes, consumed: nat, count: nat,
                                           acc: seq<Value>)
    requires depth < MAX_DEPTH && 1 <= |head| <= consumed <= |buf| && head <= buf && |acc| <= count <= MAX_INT
    requires Numbered(head, 42, count, MEMORY) && WireAll(acc, buf[|head|..consumed], depth + 1, MEMORY)
    requires DecodeElements(buf, depth, consumed, count, acc).Frame?
    ensures
      var r := DecodeElements(buf, depth, consumed, count, acc);
      Wire(r.value, buf[..r.n], depth, MEMORY)
    decreases MAX_DEPTH - depth, 0, count - |acc|
  {
    hide Decode, Numbered, WireAll;
    if |acc| == count {
      assert buf[..consumed] == head + buf[|head|..consumed];
    } else {
      FramesAreWire(buf[consumed..], depth + 1);
      var Frame(v, n) := Decode(buf[consumed..], depth + 1);
      WireMore(acc, buf[|head|..consumed], v, buf[consumed..][..n], depth + 1, MEMORY);
      Adjoining(buf, |head|, consumed, n);
      ElementsAreWire(buf, depth, head, consumed + n, count, acc + [v]);
    }
  }

  lemma {:induction false} WireDecodes(v: Value, b: Bytes, rest: Bytes, depth: nat)
    requires depth <= MAX_DEPTH && Wire(v, b, depth, MEMORY)
    ensures Decode(b + rest, depth) == Frame(v, |b|)
    decreases v, 1
  {
    hide ParseInt, Denotes, Header, Numbered, DecodeLine, DecodeElements, DecodeBulk;
    match v
    case Simple(text) => HeaderDecodes(b, 43, text, rest, MEMORY);
    case Error(message) => HeaderDecodes(b, 45, message, rest, MEMORY);
    case Integer(n) => var text := NumberDecodes(b, 58, n, rest, MEMORY);
    case Bulk(data) => BulkWireDecodes(data, b, rest);
    case NullBulk => NullBulkDecodes(b, rest);
    case Array(elements) =>
      var head, body :|
        Numbered(head, 42, |elements|, MEMORY) && b == head + body && WireAll(elements, body, depth + 1, MEMORY);
      var text := NumberDecodes(head, 42, |elements|, body + rest, MEMORY);
      assert b + rest == head + (body + rest);
      ElementsDecode(elements, head, body, rest, depth, |elements|);
      EndOfElements(b + rest, depth, |b|, elements);
    case NullArray => var text := NumberDecodes(b, 42, -1, rest, MEMORY);
    case Boolean(flag) => HeaderDecodes(b, 35, [if flag then 116 else 102], rest, MEMORY);
    case Null => HeaderDecodes(b, 95, [], rest, MEMORY);
  }

  lemma EndOfElements(buf: Bytes, depth: nat, consumed: nat, acc: seq<Value>)
    requires depth < MAX_DEPTH && 1 <= consumed <= |buf|
    ensures DecodeElements(buf, depth, consumed, |acc|, acc) == Frame(Array(acc), consumed)
  {
  }

  lemma BulkWireDecodes(data: Bytes, b: Bytes, rest: Bytes)
    requires BulkWire(data, b, MEMORY)
    ensures b + rest != [] && (b + rest)[0] == 36 && DecodeBulk(b + rest) == Frame(Bulk(data), |b|)
  {
    hide ParseInt, DecodeLine, Numbered;
    var head :| Numbered(head, 36, |data|, MEMORY) && b == head + data + CRLF;
    var text := NumberDecodes(head, 36, |data|, data + CRLF + rest, MEMORY);
    var buf := b + rest;
    assert buf == head + (data + CRLF + rest);
    var remaining := buf[|head|..];
    assert remaining == data + CRLF + rest;
    assert remaining[|data|] == CR && remaining[|data| + 1] == LF && remaining[..|data|] == data;
  }

  lemma NullBulkDecodes(b: Bytes, rest: Bytes)
    requires Numbered(b, 36, -1, MEMORY)
    ensures b + rest != [] && (b + rest)[0] == 36 && DecodeBulk(b + rest) == Frame(NullBulk, |b|)
  {
    hide ParseInt, DecodeLine, Numbered;
    var text := NumberDecodes(b, 36, -1, rest, MEMORY);
  }

  /** Elements on the wire are read one after the other, whatever the array still has to come. */
  lemma {:induction false} ElementsDecode(vs: seq<Value>, head: Bytes, body: Bytes, rest: Bytes, depth: nat,
                                          count: nat)
    requires depth < MAX_DEPTH && head != [] && |vs| <= count && WireAll(vs, body, depth + 1, MEMORY)
    ensures DecodeElements(head + body + rest, depth, |head|, count, []) ==
            DecodeElements(head + body + rest, depth, |head + body|, count, vs)
    decreases vs, 0
  {
    hide Decode, Wire;
    if vs == [] {
      assert head + body == head;
    } else {
      var n := |vs| - 1;
      var k :| 0 <= k <= |body|
               && WireAll(vs[..n], body[..k], depth + 1, MEMORY) && Wire(vs[n], body[k..], depth + 1, MEMORY);
      var buf := head + body + rest;
      assert buf == head + body[..k] + (body[k..] + rest);
      ElementsDecode(vs[..n], head, body[..k], body[k..] + rest, depth, count);
      assert buf[|head + body[..k]|..] == body[k..] + rest;
      WireDecodes(vs[n], body[k..], rest, depth + 1);
      assert vs[..n] + [vs[n]] == vs;
      NextElementDecodes(buf, depth, |head + body[..k]|, count, vs[..n], vs[n], |body[k..]|);
    }
  }

  lemma NextElementDecodes(buf: Bytes, depth: nat, consumed: nat, count: nat, acc: seq<Value>, v: Value, n: nat)
    requires depth < MAX_DEPTH && 1 <= consumed <= |buf| && |acc| < count
    requires Decode(buf[consumed..], depth + 1) == Frame(v, n)
    ensures DecodeElements(buf, depth, consumed, count, acc) ==
            DecodeElements(buf, depth, consumed + n, count, acc + [v])
  {
    hide Decode;
  }

  /** The decoder finds a value exactly where the grammar has one. */
  lemma FrameExactly(buf: Bytes, depth: nat, v: Value, n: nat)
    requires depth <= MAX_DEPTH
    ensures Decode(buf, depth) == Frame(v, n) <==> n <= |buf| && Wire(v, buf[..n], depth, MEMORY)
  {
    hide Decode, Wire;
    if Decode(buf, depth) == Frame(v, n) {
      FramesAreWire(buf, depth);
    }
    if n <= |buf| && Wire(v, buf[..n], depth, MEMORY) {
      WireDecodes(v, buf[..n], buf[n..], depth);
      assert buf[..n] + buf[n..] == buf;
    }
  }

  // ----- what it waits for -----

  /** A total in the hint: past a machine word it is dropped. */
  function Hint(total: nat): nat {
    if total > MAX_INT then 0 else total
  }

  /** `b` is a beginning that the decoder cannot judge yet, and `need` the length it can tell, 0 for none. */
  ghost predicate Pending(b: Bytes, depth: nat, need: nat)
    requires depth <= MAX_DEPTH
    decreases MAX_DEPTH - depth, 1
  {
    if b == [] then need == 0
    else
      || (OneLine(b[0]) && LF !in b[1..] && need == 0)
      || (b[0] == 36 && LF !in b[1..] && need == 0)
      || BulkPending(b, need)
      || (b[0] == 42 && depth < MAX_DEPTH && LF !in b[1..] && need == 0)
      || (depth < MAX_DEPTH &&
          exists k, inner | 0 <= k <= |b| ::
            ElementPending(b, depth, k, inner) && need == if inner == 0 then 0 else Hint(k + inner))
  }

  /** An array up to `k`, with an element behind it that is pending. */
  ghost predicate ElementPending(b: Bytes, depth: nat, k: nat, inner: nat)
    requires depth < MAX_DEPTH && k <= |b|
    decreases MAX_DEPTH - depth, 0
  {
    Opened(b[..k], depth, MEMORY) && Pending(b[k..], depth + 1, inner)
  }

  /** The header of an array and some of its elements, but not all. */
  ghost predicate Opened(b: Bytes, depth: nat, limits: Limits) {
    exists h, count, vs | 0 <= h <= |b| ::
      Numbered(b[..h], 42, count, limits) && |vs| < count <= limits.elements && WireAll(vs, b[h..], depth + 1, limits)
  }

  /** A bulk string whose length is there, and not all of its bytes and its end. */
  ghost predicate BulkPending(b: Bytes, need: nat) {
    exists head, length ::
      && Numbered(head, 36, length, MEMORY) && 0 <= length && head <= b && |b| < |head| + length + 2
      && need == Hint(|head| + length + 2)
  }

  lemma {:induction false} PendingWaits(buf: Bytes, depth: nat, need: nat)
    requires depth <= MAX_DEPTH && Pending(buf, depth, need)
    ensures Decode(buf, depth) == Incomplete(need)
    decreases MAX_DEPTH - depth
  {
    hide ParseInt, Denotes, Header, Numbered, DecodeLine, DecodeElements, DecodeBulk, WireAll, BulkPending, Opened;
    if buf != [] && LF !in buf[1..] {
      LineExactly(buf[1..], [], 0);
    }
    if buf == [] {
    } else if OneLine(buf[0]) && LF !in buf[1..] && need == 0 {
    } else if buf[0] == 36 && LF !in buf[1..] && need == 0 {
      NoLengthYet(buf);
    } else if BulkPending(buf, need) {
      BulkWaits(buf, need);
    } else if buf[0] == 42 && depth < MAX_DEPTH && LF !in buf[1..] && need == 0 {
    } else {
      var k, inner :|
        0 <= k <= |buf| && ElementPending(buf, depth, k, inner) && need == if inner == 0 then 0 else Hint(k + inner);
      PendingWaits(buf[k..], depth + 1, inner);
      ArrayWaits(buf, depth, k, inner);
    }
  }

  lemma InParts(buf: Bytes, k: nat, h: nat)
    requires h <= k <= |buf|
    ensures
      var head, body, rest := buf[..k][..h], buf[..k][h..], buf[k..];
      buf == head + body + rest && head + body + rest == head + (body + rest)
  {
    var head, body, rest := buf[..k][..h], buf[..k][h..], buf[k..];
    assert buf[..k] == head + body;
    assert buf == buf[..k] + rest;
  }

  lemma Adjoining(buf: Bytes, i: nat, j: nat, n: nat)
    requires i <= j <= |buf| && j + n <= |buf|
    ensures buf[i..j] + buf[j..][..n] == buf[i..j + n]
  {
  }

  lemma ArrayWaits(buf: Bytes, depth: nat, k: nat, inner: nat)
    requires depth < MAX_DEPTH && k <= |buf| && Opened(buf[..k], depth, MEMORY)
    requires Decode(buf[k..], depth + 1) == Incomplete(inner)
    ensures buf != [] && buf[0] == 42
    ensures Decode(buf, depth) == Incomplete(if inner == 0 then 0 else Hint(k + inner))
  {
    hide ParseInt, Denotes, Header, Numbered, DecodeLine, DecodeElements, WireAll;
    var begun, rest := buf[..k], buf[k..];
    var h, count, vs :| && 0 <= h <= |begun| && Numbered(begun[..h], 42, count, MEMORY)
                        && |vs| < count <= MAX_INT && WireAll(vs, begun[h..], depth + 1, MEMORY);
    var head, body := begun[..h], begun[h..];
    InParts(buf, k, h);
    var text := NumberDecodes(head, 42, count, body + rest, MEMORY);
    ElementsDecode(vs, head, body, rest, depth, count);
    ElementWaits(buf, depth, k, count, vs, inner);
  }

  lemma NoLengthYet(buf: Bytes)
    requires buf != [] && LF !in buf[1..]
    ensures DecodeBulk(buf) == Incomplete(0)
  {
    LineExactly(buf[1..], [], 0);
  }

  lemma ElementWaits(buf: Bytes, depth: nat, consumed: nat, count: nat, acc: seq<Value>, inner: nat)
    requires depth < MAX_DEPTH && 1 <= consumed <= |buf| && |acc| < count
    requires Decode(buf[consumed..], depth + 1) == Incomplete(inner)
    ensures DecodeElements(buf, depth, consumed, count, acc) ==
            Incomplete(if inner == 0 then 0 else Hint(consumed + inner))
  {
    hide Decode;
  }

  lemma BulkWaits(buf: Bytes, need: nat)
    requires BulkPending(buf, need)
    ensures buf != [] && buf[0] == 36 && DecodeBulk(buf) == Incomplete(need)
  {
    hide ParseInt, DecodeLine, Numbered;
    var head, length :| && Numbered(head, 36, length, MEMORY) && 0 <= length && head <= buf
                        && |buf| < |head| + length + 2 && need == Hint(|head| + length + 2);
    var rest := buf[|head|..];
    assert buf == head + rest;
    var text := NumberDecodes(head, 36, length, rest, MEMORY);
  }

  lemma {:induction false} WaitsArePending(buf: Bytes, depth: nat)
    requires depth <= MAX_DEPTH && Decode(buf, depth).Incomplete?
    ensures Pending(buf, depth, Decode(buf, depth).need)
    decreases MAX_DEPTH - depth, 1, 0
  {
    hide ParseInt, Denotes, Header, Numbered, DecodeLine, BulkPending, DecodeBulk;
    if buf != [] {
      LineExactly(buf[1..], [], 0);
      if buf[0] == 36 {
        BulkIsPending(buf);
      } else if buf[0] == 42 && DecodeLine(buf[1..]).Line? {
        var Line(text, n) := DecodeLine(buf[1..]);
        var count := ParseInt(text).value;
        NumberHeader(buf, count);
        var head := buf[..1 + n];
        WireNone(depth + 1, MEMORY);
        assert buf[|head|..|head|] == [];
        ElementsPending(buf, depth, head, 1 + n, count, []);
      }
    }
  }

  lemma BulkIsPending(buf: Bytes)
    requires buf != [] && buf[0] == 36 && DecodeBulk(buf).Incomplete?
    ensures (LF !in buf[1..] && DecodeBulk(buf).need == 0) || BulkPending(buf, DecodeBulk(buf).need)
  {
    hide ParseInt, Denotes, Header, DecodeLine;
    LineExactly(buf[1..], [], 0);
    if DecodeLine(buf[1..]).Line? {
      var Line(text, n) := DecodeLine(buf[1..]);
      NumberHeader(buf, ParseInt(text).value);
      assert buf[..1 + n] <= buf;
    }
  }

  lemma OpenedBy(begun: Bytes, head: Bytes, count: nat, vs: seq<Value>, depth: nat, limits: Limits)
    requires head <= begun && |vs| < count <= limits.elements
    requires Numbered(head, 42, count, limits) && WireAll(vs, begun[|head|..], depth + 1, limits)
    ensures Opened(begun, depth, limits)
  {
    hide Numbered, WireAll;
    assert begun[..|head|] == head;
  }

  lemma {:induction false} ElementsPending(buf: Bytes, depth: nat, head: Bytes, consumed: nat, count: nat,
                                           acc: seq<Value>)
    requires depth < MAX_DEPTH && 1 <= |head| <= consumed <= |buf| && head <= buf && |acc| <= count <= MAX_INT
    requires Numbered(head, 42, count, MEMORY) && WireAll(acc, buf[|head|..consumed], depth + 1, MEMORY)
    requires DecodeElements(buf, depth, consumed, count, acc).Incomplete?
    ensures Pending(buf, depth, DecodeElements(buf, depth, consumed, count, acc).need)
    decreases MAX_DEPTH - depth, 0, count - |acc|
  {
    hide Decode, Numbered, WireAll, BulkPending, Opened;
    if |acc| < count {
      var body := buf[|head|..consumed];
      var begun := buf[..consumed];
      assert head + body == begun && begun[..|head|] == head && begun[|head|..] == body;
      match Decode(buf[consumed..], depth + 1)
      case Frame(v, n) =>
        FramesAreWire(buf[consumed..], depth + 1);
        WireMore(acc, body, v, buf[consumed..][..n], depth + 1, MEMORY);
        Adjoining(buf, |head|, consumed, n);
        ElementsPending(buf, depth, head, consumed + n, count, acc + [v]);
      case Incomplete(inner) =>
        WaitsArePending(buf[consumed..], depth + 1);
        OpenedBy(begun, head, count, acc, depth, MEMORY);
        assert ElementPending(buf, depth, consumed, inner);
      case Bad(_) =>
    }
  }

  /** The decoder waits exactly for what is pending, with the hint that the grammar gives. */
  lemma WaitExactly(buf: Bytes, depth: nat, need: nat)
    requires depth <= MAX_DEPTH
    ensures Decode(buf, depth) == Incomplete(need) <==> Pending(buf, depth, need)
  {
    hide Decode, Pending;
    if Decode(buf, depth) == Incomplete(need) {
      WaitsArePending(buf, depth);
    }
    if Pending(buf, depth, need) {
      PendingWaits(buf, depth, need);
    }
  }

  /** Neither a value nor the beginning of one. */
  ghost predicate Malformed(b: Bytes, depth: nat)
    requires depth <= MAX_DEPTH
  {
    && (forall v, n: nat :: !(n <= |b| && Wire(v, b[..n], depth, MEMORY)))
    && (forall need: nat :: !Pending(b, depth, need))
  }

  /** It refuses exactly what neither begins with a value nor is pending, and then no more bytes will make it one. */
  lemma RefusalExactly(buf: Bytes, depth: nat)
    requires depth <= MAX_DEPTH
    ensures Decode(buf, depth).Bad? <==> Malformed(buf, depth)
    ensures Decode(buf, depth).Bad? ==>
              forall ext, v, n: nat :: !(n <= |buf + ext| && Wire(v, (buf + ext)[..n], depth, MEMORY))
  {
    hide Decode, Wire, Pending;
    forall v, n: nat {
      FrameExactly(buf, depth, v, n);
    }
    forall need: nat {
      WaitExactly(buf, depth, need);
    }
    match Decode(buf, depth) {
      case Frame(v, n) => assert n <= |buf| && Wire(v, buf[..n], depth, MEMORY);
      case Incomplete(need) => assert Pending(buf, depth, need);
      case Bad(_) =>
    }
    if Decode(buf, depth).Bad? {
      forall ext, v, n: nat ensures !(n <= |buf + ext| && Wire(v, (buf + ext)[..n], depth, MEMORY)) {
        DecodeStable(buf, ext, depth);
        FrameExactly(buf + ext, depth, v, n);
      }
    }
  }
}
