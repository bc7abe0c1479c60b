/**
 The incremental decoder (internal/protocol/decode.go): one value from the front of
 a buffer, or a lower bound on the bytes it still needs, or a permanent error.
 */
module Decoder {
  import opened Order
  import opened Decimal
  import opened Resp

  const MAX_DEPTH: nat := 128

  datatype Failure =
    | UnsupportedPrefix(prefix: byte)
    | MissingCRLF
    | BadInteger(cause: ParseError)
    | BadBoolean(marker: Bytes)
    | BadNull(payload: Bytes)
    | BadBulkLength(cause: ParseError)
    | NegativeBulkLength(length: int)
    | BulkMissingCRLF
    | TooDeep
    | BadArrayLength(cause: ParseError)
    | NegativeArrayLength(length: int)
    | Element(index: nat, inner: Failure)
    // refusals of the streaming parser only
    | LineTooLong
    | BulkTooLong(length: int)
    | ArrayTooLong(length: int)

  /** `need` is 0 where the source reports the bare incomplete error. */
  datatype Decoded = Frame(value: Value, n: nat) | Incomplete(need: nat) | Bad(error: Failure)

  datatype Line = NoLine | Unterminated | Line(text: Bytes, n: nat)

  /** `decodeLine` */
  function DecodeLine(buf: Bytes): (r: Line)
    ensures r.Line? ==> |r.text| + 2 == r.n <= |buf|
  {
    var i := LineFeed(buf);
    if i == |buf| then NoLine
    else if !Terminated(buf, i) then Unterminated
    else Line(buf[..i - 1], i + 1)
  }

  /** A line is what stands before the first line feed, which a carriage return has to precede. */
  lemma LineExactly(buf: Bytes, text: Bytes, n: nat)
    ensures DecodeLine(buf) == Line(text, n) <==> n == |text| + 2 <= |buf| && buf[..n] == text + CRLF && LF !in text
    ensures DecodeLine(buf).NoLine? <==> LF !in buf
  {
    if n == |text| + 2 <= |buf| && buf[..n] == text + CRLF && LF !in text {
      assert buf == text + CRLF + buf[n..];
      LineOf(text, buf[n..]);
    }
    var i := LineFeed(buf);
    if i < |buf| && Terminated(buf, i) {
      assert buf[..i + 1] == buf[..i - 1] + CRLF;
    }
  }

  /**
   `incompleteNeed`. The total is a 64-bit sum of non-negative terms: past the
   largest integer it wraps to a negative number and the hint is dropped.
   */
  function IncompleteNeed(total: nat): Decoded {
    if total == 0 || total > MAX_INT then Incomplete(0) else Incomplete(total)
  }

  /** The one-line frames, by prefix (internal/protocol/grammar.go). */
  function FromLine(prefix: byte, text: Bytes, n: nat): Decoded {
    if prefix == 43 then Frame(Simple(text), n)
    else if prefix == 45 then Frame(Error(text), n)
    else if prefix == 58 then
      match ParseInt(text) case Ok(v) => Frame(Integer(v), n) case Err(e) => Bad(BadInteger(e))
    else if prefix == 35 then
      if text == [116] then Frame(Boolean(true), n)
      else if text == [102] then Frame(Boolean(false), n)
      else Bad(BadBoolean(text))
    else
      if text != [] then Bad(BadNull(text)) else Frame(Null, n)
  }

  predicate OneLine(prefix: byte) { prefix in {43, 45, 58, 35, 95} }

  function Decode(buf: Bytes, depth: nat): (r: Decoded)
    requires depth <= MAX_DEPTH
    ensures r.Frame? ==> 1 <= r.n <= |buf|
    decreases MAX_DEPTH - depth, 1, 0
  {
    if buf == [] then Incomplete(0)
    else if OneLine(buf[0]) then
      match DecodeLine(buf[1..])
      case NoLine => Incomplete(0)
      case Unterminated => Bad(MissingCRLF)
      case Line(text, n) => FromLine(buf[0], text, 1 + n)
    else if buf[0] == 36 then DecodeBulk(buf)
    else if buf[0] == 42 then
      if depth >= MAX_DEPTH then Bad(TooDeep)
      else
        match DecodeLine(buf[1..])
        case NoLine => Incomplete(0)
        case Unterminated => Bad(MissingCRLF)
        case Line(text, n) =>
          match ParseInt(text)
          case Err(e) => Bad(BadArrayLength(e))
          case Ok(count) =>
            if count == -1 then Frame(NullArray, 1 + n)
            else if count < -1 then Bad(NegativeArrayLength(count))
            else DecodeElements(buf, depth, 1 + n, count, [])
    else Bad(UnsupportedPrefix(buf[0]))
  }

  /** `decodeBulkString` */
  function DecodeBulk(buf: Bytes): (r: Decoded)
    requires buf != []
    ensures r.Frame? ==> 1 <= r.n <= |buf|
  {
    match DecodeLine(buf[1..])
    case NoLine => Incomplete(0)
    case Unterminated => Bad(MissingCRLF)
    case Line(text, n) =>
      match ParseInt(text)
      case Err(e) => Bad(BadBulkLength(e))
      case Ok(length) =>
        if length == -1 then Frame(NullBulk, 1 + n)
        else if length < -1 then Bad(NegativeBulkLength(length))
        else
          var remaining := buf[1 + n..];
          if length > |remaining| - 2 then IncompleteNeed(1 + n + length + 2)
          else if remaining[length] != CR || remaining[length + 1] != LF then Bad(BulkMissingCRLF)
          else Frame(Bulk(remaining[..length]), 1 + n + length + 2)
  }

  /** The element loop of `decodeArray`, resumed with `acc` decoded so far. */
  function DecodeElements(buf: Bytes, depth: nat, consumed: nat, count: nat, acc: seq<Value>): (r: Decoded)
    requires depth < MAX_DEPTH && 1 <= consumed <= |buf| && |acc| <= count
    ensures r.Frame? ==> 1 <= r.n <= |buf|
    decreases MAX_DEPTH - depth, 0, count - |acc|
  {
    if |acc| == count then Frame(Array(acc), consumed)
    else
      match Decode(buf[consumed..], depth + 1)
      case Frame(v, n) => DecodeElements(buf, depth, consumed + n, count, acc + [v])
      case Incomplete(need) => if need == 0 then Incomplete(0) else IncompleteNeed(consumed + need)
      case Bad(e) => Bad(Element(|acc|, e))
  }

  // ----- stability -----

  lemma LineStable(buf: Bytes, ext: Bytes)
    ensures !DecodeLine(buf).NoLine? ==> DecodeLine(buf + ext) == DecodeLine(buf)
  {
    LineFeedExtend(buf, ext);
    var i := LineFeed(buf);
    if i < |buf| && Terminated(buf, i) {
      assert (buf + ext)[..i - 1] == buf[..i - 1];
    }
  }

  /** What more bytes may change: nothing once decoded or refused, and no sooner than the hint says. */
  ghost predicate Settles(before: Decoded, after: Decoded, length: nat) {
    && (before.Incomplete? || after == before)
    && (before.Incomplete? && length < before.need ==> after == before)
  }

  lemma BulkStable(buf: Bytes, ext: Bytes)
    requires buf != []
    ensures Settles(DecodeBulk(buf), DecodeBulk(buf + ext), |buf + ext|)
  {
    assert (buf + ext)[1..] == buf[1..] + ext;
    LineStable(buf[1..], ext);
    match DecodeLine(buf[1..])
    case Line(text, n) =>
      assert (buf + ext)[1 + n..] == buf[1 + n..] + ext;
      if ParseInt(text).Ok? && 0 <= ParseInt(text).value <= |buf[1 + n..]| - 2 {
        var length := ParseInt(text).value;
        assert (buf[1 + n..] + ext)[..length] == buf[1 + n..][..length];
      }
    case _ =>
  }

  /**
   A decoded value or a permanent error is final, and while the buffer is shorter
   than the reported need the frame stays incomplete and needs as much, through any
   nesting.
   */
  lemma {:induction false} DecodeStable(buf: Bytes, ext: Bytes, depth: nat)
    requires depth <= MAX_DEPTH
    ensures Settles(Decode(buf, depth), Decode(buf + ext, depth), |buf + ext|)
    decreases MAX_DEPTH - depth, 1, 0
  {
    if buf != [] {
      assert (buf + ext)[0] == buf[0] && (buf + ext)[1..] == buf[1..] + ext;
      LineStable(buf[1..], ext);
      if buf[0] == 36 {
        BulkStable(buf, ext);
      } else if buf[0] == 42 && depth < MAX_DEPTH {
        match DecodeLine(buf[1..])
        case Line(text, n) =>
          if ParseInt(text).Ok? && ParseInt(text).value >= 0 {
            ElementsStable(buf, ext, depth, 1 + n, ParseInt(text).value, []);
          }
        case _ =>
      }
    }
  }

  lemma {:induction false} ElementsStable(buf: Bytes, ext: Bytes, depth: nat, consumed: nat, count: nat,
                                          acc: seq<Value>)
    requires depth < MAX_DEPTH && 1 <= consumed <= |buf| && |acc| <= count
    ensures Settles(DecodeElements(buf, depth, consumed, count, acc),
                    DecodeElements(buf + ext, depth, consumed, count, acc), |buf + ext|)
    decreases MAX_DEPTH - depth, 0, count - |acc|
  {
    hide Decode;
    if |acc| < count {
      assert (buf + ext)[consumed..] == buf[consumed..] + ext;
      DecodeStable(buf[consumed..], ext, depth + 1);
      match Decode(buf[consumed..], depth + 1)
      case Frame(v, n) => ElementsStable(buf, ext, depth, consumed + n, count, acc + [v]);
      case _ =>
    }
  }

  // ----- round trip -----

  /**
   What may be sent `depth` arrays deep: one-line texts, sizes that fit an `int`, and at
   most 128 array levels, a null array being one.
   */
  ghost predicate Encodable(v: Value, depth: nat) {
    match v
    case Simple(text) => LF !in text
    case Error(message) => LF !in message
    case Bulk(data) => |data| <= MAX_INT
    case TextBulk(data) => |data| <= MAX_INT
    case Array(elements) =>
      depth < MAX_DEPTH && |elements| <= MAX_INT && forall e | e in elements :: Encodable(e, depth + 1)
    case NullArray => depth < MAX_DEPTH
    case _ => true
  }

  /** Decoding the header line of an encoded frame. */
  lemma HeaderLine(prefix: byte, text: Bytes, rest: Bytes)
    requires LF !in text
    ensures var buf := [prefix] + text + CRLF + rest;
            buf[0] == prefix && DecodeLine(buf[1..]) == Line(text, |text| + 2) && buf[1 + |text| + 2..] == rest
  {
    var buf := [prefix] + text + CRLF + rest;
    assert buf[1..] == text + CRLF + rest;
    LineOf(text, rest);
  }

  lemma NumberLine(prefix: byte, v: int64, rest: Bytes)
    ensures var buf := [prefix] + FormatInt(v) + CRLF + rest;
            && buf[0] == prefix && DecodeLine(buf[1..]) == Line(FormatInt(v), |FormatInt(v)| + 2)
            && ParseInt(FormatInt(v)) == Ok(v) && buf[1 + |FormatInt(v)| + 2..] == rest
  {
    FormatIsLine(v);
    ParseFormat(v);
    HeaderLine(prefix, FormatInt(v), rest);
  }

  lemma OneLineDecodes(prefix: byte, text: Bytes, rest: Bytes, depth: nat)
    requires OneLine(prefix) && LF !in text && depth <= MAX_DEPTH
    ensures Decode([prefix] + text + CRLF + rest, depth) == FromLine(prefix, text, |text| + 3)
  {
    hide DecodeLine, FromLine;
    HeaderLine(prefix, text, rest);
  }

  lemma NullDecodes(rest: Bytes, depth: nat)
    requires depth <= MAX_DEPTH
    ensures Decode([36] + FormatInt(-1) + CRLF + rest, depth) == Frame(NullBulk, |[36] + FormatInt(-1) + CRLF|)
    ensures depth < MAX_DEPTH ==>
              Decode([42] + FormatInt(-1) + CRLF + rest, depth) == Frame(NullArray, |[42] + FormatInt(-1) + CRLF|)
  {
    hide FormatInt, ParseInt, DecodeLine;
    NumberLine(36, -1, rest);
    NumberLine(42, -1, rest);
  }

  lemma BulkRoundTrip(data: Bytes, rest: Bytes, depth: nat)
    requires |data| <= MAX_INT && depth <= MAX_DEPTH
    ensures var enc := [36] + FormatInt(|data|) + CRLF + data + CRLF;
            Decode(enc + rest, depth) == Frame(Bulk(data), |enc|)
  {
    hide FormatInt, ParseInt, DecodeLine;
    var text := FormatInt(|data|);
    var enc := [36] + text + CRLF + data + CRLF;
    NumberLine(36, |data|, data + CRLF + rest);
    assert enc + rest == [36] + text + CRLF + (data + CRLF + rest);
    var remaining := data + CRLF + rest;
    assert remaining[|data|] == CR && remaining[|data| + 1] == LF && remaining[..|data|] == data;
  }

  lemma {:induction false} EncodeAllSplit(vs: seq<Value>, i: nat)
    requires i < |vs|
    ensures EncodeAll(vs) == EncodeAll(vs[..i]) + (Encode(vs[i]) + EncodeAll(vs[i + 1..]))
    decreases |vs|
  {
    hide Encode;
    var n := |vs| - 1;
    if i == n {
      assert vs[i + 1..] == [];
    } else {
      EncodeAllSplit(vs[..n], i);
      assert vs[..n][..i] == vs[..i] && vs[..n][i + 1..] == vs[i + 1..][..n - i - 1];
      assert vs[i + 1..][n - i - 1] == vs[n];
    }
  }

  lemma EncodeAllHead(vs: seq<Value>)
    requires vs != []
    ensures EncodeAll(vs) == Encode(vs[0]) + EncodeAll(vs[1..])
  {
    hide Encode;
    EncodeAllSplit(vs, 0);
    NothingEncoded();
    assert vs[..0] == [];
    assert [] + (Encode(vs[0]) + EncodeAll(vs[1..])) == Encode(vs[0]) + EncodeAll(vs[1..]);
  }

  /** Decoding an encoded value, whatever follows it, gives the value back and its exact size. */
  lemma {:induction false} RoundTrip(v: Value, rest: Bytes, depth: nat)
    requires depth <= MAX_DEPTH && Encodable(v, depth)
    ensures Decode(Encode(v) + rest, depth) == Frame(Normal(v), |Encode(v)|)
    decreases v, 1
  {
    hide FormatInt, ParseInt, Decode, EncodeAll;
    match v
    case Simple(text) => OneLineDecodes(43, text, rest, depth);
    case Error(message) => OneLineDecodes(45, message, rest, depth);
    case Integer(value) =>
      NumberLine(58, value, rest);
      FormatIsLine(value);
      OneLineDecodes(58, FormatInt(value), rest, depth);
    case Bulk(data) => BulkRoundTrip(data, rest, depth);
    case NullBulk => NullDecodes(rest, depth);
    case TextBulk(data) => BulkRoundTrip(data, rest, depth);
    case NullTextBulk => NullDecodes(rest, depth);
    case Array(elements) => ArrayRoundTrip(elements, rest, depth);
    case NullArray => NullDecodes(rest, depth);
    case Boolean(flag) => OneLineDecodes(35, [if flag then 116 else 102], rest, depth);
    case Null =>
      OneLineDecodes(95, [], rest, depth);
      assert [95] + [] + CRLF + rest == Encode(v) + rest;
  }

  lemma {:induction false} ArrayRoundTrip(elements: seq<Value>, rest: Bytes, depth: nat)
    requires depth < MAX_DEPTH && Encodable(Array(elements), depth)
    ensures Decode(Encode(Array(elements)) + rest, depth) == Frame(Normal(Array(elements)), |Encode(Array(elements))|)
    decreases elements, 0
  {
    hide FormatInt, ParseInt, DecodeLine, EncodeAll, DecodeElements;
    var header := [42] + FormatInt(|elements|) + CRLF;
    var buf := Encode(Array(elements)) + rest;
    NumberLine(42, |elements|, EncodeAll(elements) + rest);
    assert buf == header + (EncodeAll(elements) + rest);
    assert buf == header + EncodeAll(elements) + rest;
    NothingEncoded();
    ElementsRoundTrip(buf, header, elements, rest, depth, 0);
  }

  lemma NothingEncoded()
    ensures EncodeAll([]) == [] && NormalAll([]) == []
  {
  }

  lemma {:induction false} ElementsRoundTrip(buf: Bytes, header: Bytes, elements: seq<Value>, rest: Bytes, depth: nat,
                                             i: nat)
    requires depth < MAX_DEPTH && header != [] && i <= |elements|
    requires forall e | e in elements :: Encodable(e, depth + 1)
    requires buf == header + EncodeAll(elements) + rest
    requires |header + EncodeAll(elements[..i])| <= |buf|
    ensures DecodeElements(buf, depth, |header + EncodeAll(elements[..i])|, |elements|, NormalAll(elements[..i]))
            == Frame(Array(NormalAll(elements)), |header + EncodeAll(elements)|)
    decreases elements, 0, |elements| - i
  {
    hide Encode, EncodeAll, Decode, Encodable;
    if i == |elements| {
      assert elements[..i] == elements;
    } else {
      var consumed, tail := |header + EncodeAll(elements[..i])|, EncodeAll(elements[i + 1..]) + rest;
      EncodeAllSplit(elements, i);
      assert buf == header + EncodeAll(elements[..i]) + (Encode(elements[i]) + tail);
      assert buf[consumed..] == Encode(elements[i]) + tail;
      assert elements[i] in elements;
      RoundTrip(elements[i], tail, depth + 1);
      NextElement(elements, i);
      assert consumed + |Encode(elements[i])| == |header + EncodeAll(elements[..i + 1])|;
      ElementsRoundTrip(buf, header, elements, rest, depth, i + 1);
    }
  }

  lemma NextElement(elements: seq<Value>, i: nat)
    requires i < |elements|
    ensures EncodeAll(elements[..i + 1]) == EncodeAll(elements[..i]) + Encode(elements[i])
    ensures NormalAll(elements[..i + 1]) == NormalAll(elements[..i]) + [Normal(elements[i])]
  {
    assert elements[..i + 1][..i] == elements[..i];
  }

  /** No proper prefix of an encoded value decodes or is refused. */
  lemma PrefixIncomplete(v: Value, k: nat)
    requires Encodable(v, 0) && k < |Encode(v)|
    ensures Decode(Encode(v)[..k], 0).Incomplete?
    ensures Decode(Encode(v)[..k], 0).need <= |Encode(v)|
  {
    var enc := Encode(v);
    RoundTrip(v, [], 0);
    assert enc + [] == enc && enc[..k] + enc[k..] == enc;
    DecodeStable(enc[..k], enc[k..], 0);
  }

  /** Every decoded value could have been sent. */
  lemma {:induction false} DecodedIsEncodable(buf: Bytes, depth: nat)
    requires depth <= MAX_DEPTH && Decode(buf, depth).Frame?
    ensures Encodable(Decode(buf, depth).value, depth)
    decreases MAX_DEPTH - depth, 1, 0
  {
    hide ParseInt;
    if buf[0] == 42 {
      var Line(text, n) := DecodeLine(buf[1..]);
      if ParseInt(text).value >= 0 {
        ElementsEncodable(buf, depth, 1 + n, ParseInt(text).value, []);
      }
    } else if buf[0] == 43 || buf[0] == 45 {
      assert forall i | 0 <= i < LineFeed(buf[1..]) :: buf[1..][i] != LF;
    }
  }

  lemma {:induction false} ElementsEncodable(buf: Bytes, depth: nat, consumed: nat, count: nat, acc: seq<Value>)
    requires depth < MAX_DEPTH && 1 <= consumed <= |buf| && |acc| <= count <= MAX_INT
    requires forall e | e in acc :: Encodable(e, depth + 1)
    requires DecodeElements(buf, depth, consumed, count, acc).Frame?
    ensures Encodable(DecodeElements(buf, depth, consumed, count, acc).value, depth)
    decreases MAX_DEPTH - depth, 0, count - |acc|
  {
    hide Decode;
    if |acc| < count {
      DecodedIsEncodable(buf[consumed..], depth + 1);
      var Frame(v, n) := Decode(buf[consumed..], depth + 1);
      ElementsEncodable(buf, depth, consumed + n, count, acc + [v]);
    }
  }

  lemma {:induction false} NormalEncodable(v: Value, depth: nat)
    ensures Encodable(Normal(v), depth) ==> Encodable(v, depth)
  {
    match v
    case Array(elements) =>
      forall e | e in elements ensures Encodable(Normal(v), depth) ==> Encodable(e, depth + 1) {
        var i :| 0 <= i < |elements| && elements[i] == e;
        NormalAllAt(elements, i);
        assert NormalAll(elements)[i] in NormalAll(elements);
        NormalEncodable(e, depth + 1);
      }
    case _ =>
  }

  /** The round trip holds for exactly the encodable values. */
  lemma RoundTripExactly(v: Value, rest: Bytes)
    ensures Decode(Encode(v) + rest, 0) == Frame(Normal(v), |Encode(v)|) <==> Encodable(v, 0)
  {
    if Encodable(v, 0) {
      RoundTrip(v, rest, 0);
    } else if Decode(Encode(v) + rest, 0) == Frame(Normal(v), |Encode(v)|) {
      DecodedIsEncodable(Encode(v) + rest, 0);
      NormalEncodable(v, 0);
    }
  }

  /** A null array inside `n` arrays. */
  function Nested(n: nat): Value {
    if n == 0 then NullArray else Array([Nested(n - 1)])
  }

  lemma {:induction false} NestedEncodable(n: nat, depth: nat)
    ensures Encodable(Nested(n), depth) <==> n + depth < MAX_DEPTH
    decreases n
  {
    if n > 0 {
      NestedEncodable(n - 1, depth + 1);
      var inner := Nested(n - 1);
      assert inner in [inner];
      assert Encodable(Array([inner]), depth) <==> depth < MAX_DEPTH && Encodable(inner, depth + 1);
    }
  }

  /** Where the levels run out, it is refused. */
  lemma {:induction false} NestedRefused(n: nat, depth: nat, rest: Bytes)
    requires depth <= MAX_DEPTH <= n + depth
    ensures Decode(Encode(Nested(n)) + rest, depth).Bad?
    decreases n
  {
    hide Decode, Encode;
    if depth < MAX_DEPTH {
      NestedRefused(n - 1, depth + 1, rest);
      ArrayRefused(Nested(n - 1), depth, rest);
    } else {
      DepthRefused(n, rest);
    }
  }

  lemma DepthRefused(n: nat, rest: Bytes)
    ensures Decode(Encode(Nested(n)) + rest, MAX_DEPTH) == Bad(TooDeep)
  {
    hide FormatInt, EncodeAll;
    assert (Encode(Nested(n)) + rest)[0] == 42;
  }

  /** An array of one element is refused if the element is. */
  lemma ArrayRefused(v: Value, depth: nat, rest: Bytes)
    requires depth < MAX_DEPTH && Decode(Encode(v) + rest, depth + 1).Bad?
    ensures Decode(Encode(Array([v])) + rest, depth).Bad?
  {
    hide FormatInt, ParseInt, Encode, EncodeAll, Decode, DecodeElements;
    OneElement(v);
    var header := [42] + FormatInt(1) + CRLF;
    var buf := header + (Encode(v) + rest);
    assert Encode(Array([v])) + rest == buf && buf[|header|..] == Encode(v) + rest;
    FirstRefused(buf, depth, |header|);
    ArrayHeader(Encode(v) + rest, depth);
  }

  lemma ArrayHeader(rest: Bytes, depth: nat)
    requires depth < MAX_DEPTH
    ensures
      var header := [42] + FormatInt(1) + CRLF;
      DecodeElements(header + rest, depth, |header|, 1, []).Bad? ==> Decode(header + rest, depth).Bad?
  {
    hide FormatInt, ParseInt, DecodeLine, DecodeElements;
    NumberLine(42, 1, rest);
  }

  lemma FirstRefused(buf: Bytes, depth: nat, consumed: nat)
    requires depth < MAX_DEPTH && 1 <= consumed <= |buf| && Decode(buf[consumed..], depth + 1).Bad?
    ensures DecodeElements(buf, depth, consumed, 1, []).Bad?
  {
    hide Decode;
  }

  lemma OneElement(v: Value)
    ensures Encode(Array([v])) == [42] + FormatInt(1) + CRLF + Encode(v)
  {
    hide FormatInt;
    assert [v][..0] == [];
    assert EncodeAll([v]) == [] + Encode(v) == Encode(v);
  }

  /** At the greatest depth a null array is refused, one level up it is not. */
  lemma NullArrayTooDeep(rest: Bytes)
    ensures Decode(Encode(Nested(MAX_DEPTH)) + rest, 0).Bad?
    ensures Decode(Encode(Nested(MAX_DEPTH - 1)) + rest, 0) ==
              Frame(Normal(Nested(MAX_DEPTH - 1)), |Encode(Nested(MAX_DEPTH - 1))|)
  {
    hide Nested, Encodable, Decode, Encode, Normal;
    NestedRefused(MAX_DEPTH, 0, rest);
    NestedEncodable(MAX_DEPTH - 1, 0);
    RoundTripExactly(Nested(MAX_DEPTH - 1), rest);
  }

  // ----- the decoder itself -----

  /** `decode` */
  method DecodeValue(buf: Bytes, depth: nat) returns (r: Decoded)
    requires depth <= MAX_DEPTH
    ensures r == Decode(buf, depth)
    decreases MAX_DEPTH - depth, 1
  {
    if |buf| == 0 { return Incomplete(0); }
    if buf[0] == 36 { return DecodeBulk(buf); }
    if buf[0] == 42 {
      r := DecodeArray(buf, depth);
      return;
    }
    if !OneLine(buf[0]) { return Bad(UnsupportedPrefix(buf[0])); }
    match DecodeLine(buf[1..])
    case NoLine => return Incomplete(0);
    case Unterminated => return Bad(MissingCRLF);
    case Line(text, n) => return FromLine(buf[0], text, 1 + n);
  }

  /** `decodeArray` */
  method DecodeArray(buf: Bytes, depth: nat) returns (r: Decoded)
    requires depth <= MAX_DEPTH && buf != [] && buf[0] == 42
    ensures r == Decode(buf, depth)
    decreases MAX_DEPTH - depth, 0
  {
    hide ParseInt, DecodeElements, DecodeLine;
    if depth >= MAX_DEPTH { return Bad(TooDeep); }
    var line := DecodeLine(buf[1..]);
    if line.NoLine? { return Incomplete(0); }
    if line.Unterminated? { return Bad(MissingCRLF); }
    var parsed := ParseIntBytes(line.text);
    if parsed.Err? { return Bad(BadArrayLength(parsed.error)); }
    var count, consumed := parsed.value, 1 + line.n;
    if count == -1 { return Frame(NullArray, consumed); }
    if count < -1 { return Bad(NegativeArrayLength(count)); }
    r := DecodeLoop(buf, depth, consumed, count);
  }

  method DecodeLoop(buf: Bytes, depth: nat, start: nat, count: nat) returns (r: Decoded)
    requires depth < MAX_DEPTH && 1 <= start <= |buf|
    ensures r == DecodeElements(buf, depth, start, count, [])
    decreases MAX_DEPTH - depth, 0, 0
  {
    hide Decode;
    var elements: seq<Value> := [];
    var consumed := start;
    for i := 0 to count
      invariant |elements| == i && 1 <= consumed <= |buf|
      invariant DecodeElements(buf, depth, start, count, []) == DecodeElements(buf, depth, consumed, count, elements)
    {
      var element := DecodeValue(buf[consumed..], depth + 1);
      match element
      case Incomplete(need) =>
        if need == 0 { return Incomplete(0); }
        return IncompleteNeed(consumed + need);
      case Bad(e) => return Bad(Element(i, e));
      case Frame(v, n) =>
        elements := elements + [v];
        consumed := consumed + n;
    }
    return Frame(Array(elements), consumed);
  }
}
