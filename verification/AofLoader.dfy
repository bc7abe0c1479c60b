/**
 The streaming parser (internal/protocol/parser.go) and the replay of an append-only
 file with a possibly torn tail (internal/aof/loader.go).
 */
module AofLoader {
  import opened Options
  import opened Order
  import opened Decimal
  import opened Resp
  import opened Decoder

  const MAX_BULK: int := 512 * 1024 * 1024
  const MAX_ELEMENTS: int := 1024 * 1024
  /**
   A line is read in pieces of 4096 bytes and given up once more than 65536 bytes
   hold no terminator, which is seen after the seventeenth piece.
   */
  const LINE_CAP: nat := 17 * 4096

  /** `End`: the stream is over; `torn` if in the middle of a payload. */
  datatype Result = Got(value: Value, n: nat) | End(torn: bool) | Refused(error: Failure)

  datatype LineRead = LineEnd | LineBad(error: Failure) | LineOk(text: Bytes, n: nat)

  /** `readLineBytes` */
  function ReadLine(buf: Bytes): (r: LineRead)
    ensures r.LineOk? ==> |r.text| + 2 == r.n <= |buf|
  {
    var i := LineFeed(buf);
    if i < |buf| && i < LINE_CAP then
      if Terminated(buf, i) then LineOk(buf[..i - 1], i + 1) else LineBad(MissingCRLF)
    else if |buf| >= LINE_CAP then LineBad(LineTooLong)
    else LineEnd
  }

  function FromDecoded(d: Decoded): Result
    requires !d.Incomplete?
  {
    match d case Frame(v, n) => Got(v, n) case Bad(e) => Refused(e)
  }

  /** `Parser.parse` on the bytes still to be read. */
  function Parse(buf: Bytes, depth: nat): (r: Result)
    requires depth <= MAX_DEPTH
    ensures r.Got? ==> 1 <= r.n <= |buf|
    decreases MAX_DEPTH - depth, 1, 0
  {
    if buf == [] then End(false)
    else if OneLine(buf[0]) then
      match ReadLine(buf[1..])
      case LineEnd => End(false)
      case LineBad(e) => Refused(e)
      case LineOk(text, n) => FromDecoded(FromLine(buf[0], text, 1 + n))
    else if buf[0] == 36 then ParseBulk(buf)
    else if buf[0] == 42 then
      if depth >= MAX_DEPTH then Refused(TooDeep)
      else
        match ReadLine(buf[1..])
        case LineEnd => End(false)
        case LineBad(e) => Refused(e)
        case LineOk(text, n) =>
          match ParseInt(text)
          case Err(e) => Refused(BadArrayLength(e))
          case Ok(count) =>
            if count == -1 then Got(NullArray, 1 + n)
            else if count < -1 then Refused(NegativeArrayLength(count))
            else if count > MAX_ELEMENTS then Refused(ArrayTooLong(count))
            else ParseElements(buf, depth, 1 + n, count, [])
    else Refused(UnsupportedPrefix(buf[0]))
  }

  /** `parseBulkString` */
  function ParseBulk(buf: Bytes): (r: Result)
    requires buf != []
    ensures r.Got? ==> 1 <= r.n <= |buf|
  {
    match ReadLine(buf[1..])
    case LineEnd => End(false)
    case LineBad(e) => Refused(e)
    case LineOk(text, n) =>
      match ParseInt(text)
      case Err(e) => Refused(BadBulkLength(e))
      case Ok(length) =>
        if length == -1 then Got(NullBulk, 1 + n)
        else if length < -1 then Refused(NegativeBulkLength(length))
        else if length > MAX_BULK then Refused(BulkTooLong(length))
        else
          var remaining := buf[1 + n..];
          if length > |remaining| then End(|remaining| > 0)
          else if length + 2 > |remaining| then End(false)
          else if remaining[length] != CR || remaining[length + 1] != LF then Refused(BulkMissingCRLF)
          else Got(Bulk(remaining[..length]), 1 + n + length + 2)
  }

  /** The element loop of `parseArray`. */
  function ParseElements(buf: Bytes, depth: nat, consumed: nat, count: nat, acc: seq<Value>): (r: Result)
    requires depth < MAX_DEPTH && 1 <= consumed <= |buf| && |acc| <= count
    ensures r.Got? ==> 1 <= r.n <= |buf|
    decreases MAX_DEPTH - depth, 0, count - |acc|
  {
    if |acc| == count then Got(Array(acc), consumed)
    else
      match Parse(buf[consumed..], depth + 1)
      case Got(v, n) => ParseElements(buf, depth, consumed + n, count, acc + [v])
      case End(torn) => End(torn)
      case Refused(e) => Refused(Element(|acc|, e))
  }

  // ----- stability -----

  lemma ReadLineStable(buf: Bytes, ext: Bytes)
    ensures !ReadLine(buf).LineEnd? ==> ReadLine(buf + ext) == ReadLine(buf)
  {
    LineFeedExtend(buf, ext);
    var i := LineFeed(buf);
    if i < |buf| && i < LINE_CAP && Terminated(buf, i) {
      assert (buf + ext)[..i - 1] == buf[..i - 1];
    }
  }

  lemma BulkStable(buf: Bytes, ext: Bytes)
    requires buf != []
    ensures !ParseBulk(buf).End? ==> ParseBulk(buf + ext) == ParseBulk(buf)
  {
    assert (buf + ext)[1..] == buf[1..] + ext;
    ReadLineStable(buf[1..], ext);
    match ReadLine(buf[1..])
    case LineOk(text, n) =>
      assert (buf + ext)[1 + n..] == buf[1 + n..] + ext;
      if ParseInt(text).Ok? && 0 <= ParseInt(text).value <= |buf[1 + n..]| - 2 {
        var length := ParseInt(text).value;
        assert (buf[1 + n..] + ext)[..length] == buf[1 + n..][..length];
      }
    case _ =>
  }

  /** A value read, or a refusal, does not depend on what comes later in the file. */
  lemma {:induction false} ParseStable(buf: Bytes, ext: Bytes, depth: nat)
    requires depth <= MAX_DEPTH
    ensures !Parse(buf, depth).End? ==> Parse(buf + ext, depth) == Parse(buf, depth)
    decreases MAX_DEPTH - depth, 1, 0
  {
    hide ParseInt;
    if buf != [] {
      assert (buf + ext)[0] == buf[0] && (buf + ext)[1..] == buf[1..] + ext;
      ReadLineStable(buf[1..], ext);
      if buf[0] == 36 {
        BulkStable(buf, ext);
      } else if buf[0] == 42 && depth < MAX_DEPTH {
        match ReadLine(buf[1..])
        case LineOk(text, n) =>
          if ParseInt(text).Ok? && 0 <= ParseInt(text).value <= MAX_ELEMENTS {
            ElementsStable(buf, ext, depth, 1 + n, ParseInt(text).value, []);
          }
        case _ =>
      }
    }
  }

  lemma {:induction false} ElementsStable(buf: Bytes, ext: Bytes, depth: nat, consumed: nat, count: nat,
                                          acc: seq<Value>)
    requires depth < MAX_DEPTH && 1 <= consumed <= |buf| && |acc| <= count
    ensures !ParseElements(buf, depth, consumed, count, acc).End? ==>
              ParseElements(buf + ext, depth, consumed, count, acc) == ParseElements(buf, depth, consumed, count, acc)
    decreases MAX_DEPTH - depth, 0, count - |acc|
  {
    hide Parse;
    if |acc| < count {
      assert (buf + ext)[consumed..] == buf[consumed..] + ext;
      ParseStable(buf[consumed..], ext, depth + 1);
      match Parse(buf[consumed..], depth + 1)
      case Got(v, n) => ElementsStable(buf, ext, depth, consumed + n, count, acc + [v]);
      case _ =>
    }
  }

  // ----- reading back what was written -----

  /** What can be written to the file and read back, `depth` arrays deep: encodable and within the parser's limits. */
  ghost predicate Storable(v: Value, depth: nat) {
    match v
    case Simple(text) => LF !in text && |text| + 2 <= LINE_CAP
    case Error(message) => LF !in message && |message| + 2 <= LINE_CAP
    case Bulk(data) => |data| <= MAX_BULK
    case TextBulk(data) => |data| <= MAX_BULK
    case Array(elements) =>
      depth < MAX_DEPTH && |elements| <= MAX_ELEMENTS && forall e | e in elements :: Storable(e, depth + 1)
    case NullArray => depth < MAX_DEPTH
    case _ => true
  }

  lemma HeaderRead(prefix: byte, text: Bytes, rest: Bytes)
    requires LF !in text && |text| + 2 <= LINE_CAP
    ensures var buf := [prefix] + text + CRLF + rest;
            buf[0] == prefix && ReadLine(buf[1..]) == LineOk(text, |text| + 2) && buf[1 + |text| + 2..] == rest
  {
    var buf := [prefix] + text + CRLF + rest;
    assert buf[1..] == text + CRLF + rest;
    LineOf(text, rest);
  }

  lemma NumberRead(prefix: byte, v: int64, rest: Bytes)
    ensures var buf := [prefix] + FormatInt(v) + CRLF + rest;
            && buf[0] == prefix && ReadLine(buf[1..]) == LineOk(FormatInt(v), |FormatInt(v)| + 2)
            && ParseInt(FormatInt(v)) == Ok(v) && buf[1 + |FormatInt(v)| + 2..] == rest
  {
    hide FormatInt, ParseInt;
    FormatIsLine(v);
    FormatShort(v);
    ParseFormat(v);
    HeaderRead(prefix, FormatInt(v), rest);
  }

  lemma OneLineRead(prefix: byte, text: Bytes, rest: Bytes, depth: nat)
    requires OneLine(prefix) && LF !in text && |text| + 2 <= LINE_CAP && depth <= MAX_DEPTH
    ensures Parse([prefix] + text + CRLF + rest, depth) == FromDecoded(FromLine(prefix, text, |text| + 3))
  {
    hide ReadLine, FromLine;
    HeaderRead(prefix, text, rest);
  }

  lemma NullRead(rest: Bytes, depth: nat)
    requires depth <= MAX_DEPTH
    ensures Parse([36] + FormatInt(-1) + CRLF + rest, depth) == Got(NullBulk, |[36] + FormatInt(-1) + CRLF|)
    ensures depth < MAX_DEPTH ==>
              Parse([42] + FormatInt(-1) + CRLF + rest, depth) == Got(NullArray, |[42] + FormatInt(-1) + CRLF|)
  {
    hide FormatInt, ParseInt, ReadLine;
    NumberRead(36, -1, rest);
    NumberRead(42, -1, rest);
  }

  lemma BulkRead(data: Bytes, rest: Bytes, depth: nat)
    requires |data| <= MAX_BULK && depth <= MAX_DEPTH
    ensures var enc := [36] + FormatInt(|data|) + CRLF + data + CRLF;
            Parse(enc + rest, depth) == Got(Bulk(data), |enc|)
  {
    hide FormatInt, ParseInt, ReadLine;
    var text := FormatInt(|data|);
    var enc := [36] + text + CRLF + data + CRLF;
    NumberRead(36, |data|, data + CRLF + rest);
    assert enc + rest == [36] + text + CRLF + (data + CRLF + rest);
    var remaining := data + CRLF + rest;
    assert remaining[|data|] == CR && remaining[|data| + 1] == LF && remaining[..|data|] == data;
  }

  /** Parsing an encoded value, whatever follows it, gives the value back and its exact size. */
  lemma {:induction false} ReadBack(v: Value, rest: Bytes, depth: nat)
    requires depth <= MAX_DEPTH && Storable(v, depth)
    ensures Parse(Encode(v) + rest, depth) == Got(Normal(v), |Encode(v)|)
    decreases v, 1
  {
    hide FormatInt, ParseInt, Parse, EncodeAll;
    match v
    case Simple(text) => OneLineRead(43, text, rest, depth);
    case Error(message) => OneLineRead(45, message, rest, depth);
    case Integer(value) =>
      NumberRead(58, value, rest);
      FormatIsLine(value);
      FormatShort(value);
      OneLineRead(58, FormatInt(value), rest, depth);
    case Bulk(data) => BulkRead(data, rest, depth);
    case NullBulk => NullRead(rest, depth);
    case TextBulk(data) => BulkRead(data, rest, depth);
    case NullTextBulk => NullRead(rest, depth);
    case Array(elements) => ArrayRead(elements, rest, depth);
    case NullArray => NullRead(rest, depth);
    case Boolean(flag) => OneLineRead(35, [if flag then 116 else 102], rest, depth);
    case Null =>
      OneLineRead(95, [], rest, depth);
      assert [95] + [] + CRLF + rest == Encode(v) + rest;
  }

  lemma {:induction false} ArrayRead(elements: seq<Value>, rest: Bytes, depth: nat)
    requires depth < MAX_DEPTH && Storable(Array(elements), depth)
    ensures Parse(Encode(Array(elements)) + rest, depth) == Got(Normal(Array(elements)), |Encode(Array(elements))|)
    decreases elements, 0
  {
    hide FormatInt, ParseInt, ReadLine, EncodeAll, ParseElements;
    var header := [42] + FormatInt(|elements|) + CRLF;
    var buf := Encode(Array(elements)) + rest;
    NumberRead(42, |elements|, EncodeAll(elements) + rest);
    assert buf == header + (EncodeAll(elements) + rest);
    assert buf == header + EncodeAll(elements) + rest;
    NothingEncoded();
    ElementsRead(buf, header, elements, rest, depth, 0);
  }

  lemma {:induction false} ElementsRead(buf: Bytes, header: Bytes, elements: seq<Value>, rest: Bytes, depth: nat,
                                        i: nat)
    requires depth < MAX_DEPTH && header != [] && i <= |elements|
    requires forall e | e in elements :: Storable(e, depth + 1)
    requires buf == header + EncodeAll(elements) + rest
    requires |header + EncodeAll(elements[..i])| <= |buf|
    ensures ParseElements(buf, depth, |header + EncodeAll(elements[..i])|, |elements|, NormalAll(elements[..i]))
            == Got(Array(NormalAll(elements)), |header + EncodeAll(elements)|)
    decreases elements, 0, |elements| - i
  {
    hide Encode, EncodeAll, Parse, Storable;
    if i == |elements| {
      assert elements[..i] == elements;
    } else {
      var consumed, tail := |header + EncodeAll(elements[..i])|, EncodeAll(elements[i + 1..]) + rest;
      EncodeAllSplit(elements, i);
      assert buf == header + EncodeAll(elements[..i]) + (Encode(elements[i]) + tail);
      assert buf[consumed..] == Encode(elements[i]) + tail;
      assert elements[i] in elements;
      ReadBack(elements[i], tail, depth + 1);
      NextElement(elements, i);
      assert consumed + |Encode(elements[i])| == |header + EncodeAll(elements[..i + 1])|;
      ElementsRead(buf, header, elements, rest, depth, i + 1);
    }
  }

  /** A bulk string over the limit is refused at its header. */
  lemma BulkRefused(data: Bytes, rest: Bytes, depth: nat)
    requires MAX_BULK < |data| <= MAX_INT && depth <= MAX_DEPTH
    ensures Parse([36] + FormatInt(|data|) + CRLF + data + CRLF + rest, depth) == Refused(BulkTooLong(|data|))
  {
    hide FormatInt, ParseInt, ReadLine;
    var text := FormatInt(|data|);
    NumberRead(36, |data|, data + CRLF + rest);
    assert [36] + text + CRLF + data + CRLF + rest == [36] + text + CRLF + (data + CRLF + rest);
  }

  /** An array with too many elements is refused at its header. */
  lemma ArrayRefused(elements: seq<Value>, rest: Bytes)
    requires MAX_ELEMENTS < |elements| <= MAX_INT
    ensures Parse(Encode(Array(elements)) + rest, 0) == Refused(ArrayTooLong(|elements|))
  {
    hide FormatInt, ParseInt, ReadLine, EncodeAll, ParseElements;
    var header := [42] + FormatInt(|elements|) + CRLF;
    NumberRead(42, |elements|, EncodeAll(elements) + rest);
    assert Encode(Array(elements)) + rest == header + (EncodeAll(elements) + rest);
  }

  /** An array is refused for the first element that is, when those before it can be read. */
  lemma {:induction false} ElementRefused(buf: Bytes, header: Bytes, elements: seq<Value>, rest: Bytes, i: nat,
                                          j: nat, e: Failure)
    requires header != [] && i <= j < |elements|
    requires forall k | 0 <= k < j :: Storable(elements[k], 1)
    requires Parse(Encode(elements[j]) + (EncodeAll(elements[j + 1..]) + rest), 1) == Refused(e)
    requires buf == header + EncodeAll(elements) + rest
    requires |header + EncodeAll(elements[..i])| <= |buf|
    ensures ParseElements(buf, 0, |header + EncodeAll(elements[..i])|, |elements|, NormalAll(elements[..i]))
            == Refused(Element(j, e))
    decreases j - i
  {
    hide Encode, EncodeAll, Parse, Storable;
    var consumed, tail := |header + EncodeAll(elements[..i])|, EncodeAll(elements[i + 1..]) + rest;
    EncodeAllSplit(elements, i);
    assert buf == header + EncodeAll(elements[..i]) + (Encode(elements[i]) + tail);
    assert buf[consumed..] == Encode(elements[i]) + tail;
    if i < j {
      ReadBack(elements[i], tail, 1);
      NextElement(elements, i);
      assert consumed + |Encode(elements[i])| == |header + EncodeAll(elements[..i + 1])|;
      ElementRefused(buf, header, elements, rest, i + 1, j, e);
    }
  }

  /** A value cut short reads as the end of the file, never as a value or a refusal. */
  lemma PrefixEnds(v: Value, k: nat)
    requires Storable(v, 0) && k < |Encode(v)|
    ensures Parse(Encode(v)[..k], 0).End?
  {
    hide Parse, Encode;
    var enc := Encode(v);
    ReadBack(v, [], 0);
    assert enc + [] == enc && enc[..k] + enc[k..] == enc;
    ParseStable(enc[..k], enc[k..], 0);
  }

  // ----- loading -----

  /** `isRecoverableTruncation` for the refusals: a missing terminator, however deep. */
  predicate TornTerminator(e: Failure) {
    match e
    case MissingCRLF => true
    case BulkMissingCRLF => true
    case Element(_, inner) => TornTerminator(inner)
    case _ => false
  }

  datatype Outcome = Loaded(truncatedTail: bool) | ParseFailed(error: Failure) | ReplayFailed

  /** What a load has replayed, what it leaves and how it ended. */
  datatype Loading<S> = Loading(replayed: seq<Value>, state: S, outcome: Outcome) {
    function After(earlier: seq<Value>): Loading<S> {
      Loading(earlier + replayed, state, outcome)
    }
  }

  /**
   `LoadFile`: replays the values of the file in order until it ends, is torn, or
   fails; `replay` is the executor, which refuses a value or goes on to its next state.
   */
  method LoadFile<S>(file: Bytes, start: S, replay: (S, Value) -> Option<S>)
    returns (replayed: seq<Value>, state: S, outcome: Outcome)
    ensures Loading(replayed, state, outcome) == Load(file, start, replay)
  {
    hide Parse;
    replayed, state := [], start;
    var pos := 0;
    assert file[0..] == file;
    while true
      invariant pos <= |file|
      invariant Load(file, start, replay) == Load(file[pos..], state, replay).After(replayed)
      decreases |file| - pos
    {
      assert replayed + [] == replayed;
      var r := ParseValue(file[pos..], 0);
      match r
      case End(torn) => return replayed, state, Loaded(torn);
      case Refused(e) =>
        if TornTerminator(e) { return replayed, state, Loaded(true); }
        return replayed, state, ParseFailed(e);
      case Got(v, n) =>
        var next := replay(state, v);
        if next.None? { return replayed, state, ReplayFailed; }
        assert file[pos..][n..] == file[pos + n..];
        ghost var later := Load(file[pos + n..], next.value, replay).replayed;
        assert replayed + ([v] + later) == replayed + [v] + later;
        replayed, state := replayed + [v], next.value;
        pos := pos + n;
    }
  }

  /** The same as a function of the file. */
  function Load<S>(file: Bytes, state: S, replay: (S, Value) -> Option<S>): Loading<S>
    decreases |file|
  {
    match Parse(file, 0)
    case End(torn) => Loading([], state, Loaded(torn))
    case Refused(e) => Loading([], state, if TornTerminator(e) then Loaded(true) else ParseFailed(e))
    case Got(v, n) =>
      match replay(state, v)
      case None => Loading([], state, ReplayFailed)
      case Some(next) => Load(file[n..], next, replay).After([v])
  }

  /** The state after replaying some values, if none of them is refused. */
  ghost function ReplayAll<S>(vs: seq<Value>, state: S, replay: (S, Value) -> Option<S>): Option<S> {
    if vs == [] then Some(state)
    else
      match replay(state, vs[0])
      case None => None
      case Some(next) => ReplayAll(vs[1..], next, replay)
  }

  lemma {:induction false} ReplayMore<S>(vs: seq<Value>, v: Value, state: S, replay: (S, Value) -> Option<S>)
    ensures ReplayAll(vs + [v], state, replay) ==
            match ReplayAll(vs, state, replay)
            case None => None
            case Some(t) => replay(t, v)
    decreases |vs|
  {
    if vs == [] {
      assert vs + [v] == [v];
    } else {
      assert (vs + [v])[1..] == vs[1..] + [v];
      match replay(state, vs[0])
      case None =>
      case Some(t) => ReplayMore(vs[1..], v, t, replay);
    }
  }

  /** How many of the values lie wholly within the first `k` bytes of their encoding. */
  ghost function Whole(vs: seq<Value>, k: nat): (j: nat)
    ensures j <= |vs|
  {
    if vs == [] || k < |Encode(vs[0])| then 0 else 1 + Whole(vs[1..], k - |Encode(vs[0])|)
  }

  /**
   Loading any prefix of a log replays exactly the commands wholly contained in it,
   in order, and succeeds if the executor accepts them.
   */
  lemma {:induction false} PrefixLoads<S>(vs: seq<Value>, k: nat, state: S, replay: (S, Value) -> Option<S>)
    requires k <= |EncodeAll(vs)|
    requires forall v | v in vs :: Storable(v, 0)
    requires ReplayAll(NormalAll(vs[..Whole(vs, k)]), state, replay).Some?
    ensures
      var r := Load(EncodeAll(vs)[..k], state, replay);
      && r.replayed == NormalAll(vs[..Whole(vs, k)])
      && Some(r.state) == ReplayAll(r.replayed, state, replay)
      && r.outcome.Loaded?
    decreases |vs|
  {
    hide Parse, Encode, Storable, Load, EncodeAll, NormalAll, Whole;
    if vs == [] {
      EmptyFile(state, replay);
      assert EncodeAll(vs)[..k] == [] && vs[..Whole(vs, k)] == [];
    } else if k < |Encode(vs[0])| {
      FirstCut(vs, k, state, replay);
    } else {
      FirstWhole(vs, k, state, replay);
      var first, later := Normal(vs[0]), NormalAll(vs[1..][..Whole(vs[1..], k - |Encode(vs[0])|)]);
      assert ([first] + later)[1..] == later;
      assert forall v | v in vs[1..] :: v in vs;
      PrefixLoads(vs[1..], k - |Encode(vs[0])|, replay(state, first).value, replay);
    }
  }

  /** A prefix that ends within the first command. */
  lemma FirstCut<S>(vs: seq<Value>, k: nat, state: S, replay: (S, Value) -> Option<S>)
    requires vs != [] && k < |Encode(vs[0])| && k <= |EncodeAll(vs)| && Storable(vs[0], 0)
    ensures NormalAll(vs[..Whole(vs, k)]) == []
    ensures
      var r := Load(EncodeAll(vs)[..k], state, replay);
      r.replayed == [] && r.state == state && r.outcome.Loaded?
  {
    hide Parse, Encode, Storable, Load;
    EncodeAllHead(vs);
    assert EncodeAll(vs)[..k] == Encode(vs[0])[..k];
    PrefixEnds(vs[0], k);
    LoadStep(EncodeAll(vs)[..k], state, replay);
    NothingEncoded();
  }

  /** A prefix that holds the first command. */
  lemma FirstWhole<S>(vs: seq<Value>, k: nat, state: S, replay: (S, Value) -> Option<S>)
    requires vs != [] && |Encode(vs[0])| <= k <= |EncodeAll(vs)| && Storable(vs[0], 0)
    ensures
      var n := |Encode(vs[0])|;
      && k - n <= |EncodeAll(vs[1..])|
      && NormalAll(vs[..Whole(vs, k)]) == [Normal(vs[0])] + NormalAll(vs[1..][..Whole(vs[1..], k - n)])
      && (replay(state, Normal(vs[0])).Some? ==>
            Load(EncodeAll(vs)[..k], state, replay) ==
            Load(EncodeAll(vs[1..])[..k - n], replay(state, Normal(vs[0])).value, replay).After([Normal(vs[0])]))
  {
    hide Parse, Encode, Storable, Load, NormalAll;
    EncodeAllHead(vs);
    var enc, tail, k' := Encode(vs[0]), EncodeAll(vs[1..]), k - |Encode(vs[0])|;
    var rest := tail[..k'];
    assert EncodeAll(vs)[..k] == enc + rest && (enc + rest)[|enc|..] == rest;
    ReadBack(vs[0], rest, 0);
    LoadStep(enc + rest, state, replay);
    var j := Whole(vs[1..], k');
    assert vs[..j + 1][1..] == vs[1..][..j];
    NormalHead(vs[..j + 1]);
  }

  lemma LoadStep<S>(file: Bytes, state: S, replay: (S, Value) -> Option<S>)
    ensures Parse(file, 0).End? ==> Load(file, state, replay) == Loading([], state, Loaded(Parse(file, 0).torn))
    ensures Parse(file, 0).Got? && replay(state, Parse(file, 0).value).Some? ==>
              var p := Parse(file, 0);
              Load(file, state, replay) == Load(file[p.n..], replay(state, p.value).value, replay).After([p.value])
  {
    hide Parse;
  }

  lemma EmptyFile<S>(state: S, replay: (S, Value) -> Option<S>)
    ensures Load([], state, replay) == Loading([], state, Loaded(false)) && EncodeAll([]) == [] && NormalAll([]) == []
  {
  }

  lemma {:induction false} NormalHead(vs: seq<Value>)
    requires vs != []
    ensures NormalAll(vs) == [Normal(vs[0])] + NormalAll(vs[1..])
  {
    var n := |vs| - 1;
    if n > 0 {
      NormalHead(vs[..n]);
      assert vs[..n][1..] == vs[1..][..n - 1] && vs[1..][n - 1] == vs[n];
    }
  }

  /** `Whole` counts the commands whose last byte made it into the prefix. */
  lemma {:induction false} WholeIsLargest(vs: seq<Value>, k: nat)
    requires k <= |EncodeAll(vs)|
    ensures |EncodeAll(vs[..Whole(vs, k)])| <= k
    ensures Whole(vs, k) < |vs| ==> k < |EncodeAll(vs[..Whole(vs, k) + 1])|
  {
    hide Encode;
    if vs != [] {
      EncodeAllHead(vs);
      if k < |Encode(vs[0])| {
        EncodeAllHead(vs[..1]);
        assert vs[..1][1..] == [] && vs[..0] == [];
      } else {
        var k' := k - |Encode(vs[0])|;
        var j := Whole(vs[1..], k');
        WholeIsLargest(vs[1..], k');
        EncodeAllHead(vs[..j + 1]);
        assert vs[..j + 1][1..] == vs[1..][..j];
        if j < |vs[1..]| {
          EncodeAllHead(vs[..j + 2]);
          assert vs[..j + 2][1..] == vs[1..][..j + 1];
        }
      }
    }
  }

  // ----- the parser itself -----

  /** `Parser.parse` */
  method ParseValue(buf: Bytes, depth: nat) returns (r: Result)
    requires depth <= MAX_DEPTH
    ensures r == Parse(buf, depth)
    decreases MAX_DEPTH - depth, 1
  {
    hide ParseElements, ReadLine;
    if |buf| == 0 { return End(false); }
    if buf[0] == 36 { return ParseBulk(buf); }
    if buf[0] == 42 {
      if depth >= MAX_DEPTH { return Refused(TooDeep); }
      var line := ReadLine(buf[1..]);
      if line.LineEnd? { return End(false); }
      if line.LineBad? { return Refused(line.error); }
      var parsed := ParseIntBytes(line.text);
      if parsed.Err? { return Refused(BadArrayLength(parsed.error)); }
      var count := parsed.value;
      if count == -1 { return Got(NullArray, 1 + line.n); }
      if count < -1 { return Refused(NegativeArrayLength(count)); }
      if count > MAX_ELEMENTS { return Refused(ArrayTooLong(count)); }
      r := ParseLoop(buf, depth, 1 + line.n, count);
      return;
    }
    if !OneLine(buf[0]) { return Refused(UnsupportedPrefix(buf[0])); }
    match ReadLine(buf[1..])
    case LineEnd => return End(false);
    case LineBad(e) => return Refused(e);
    case LineOk(text, n) => return FromDecoded(FromLine(buf[0], text, 1 + n));
  }

  method ParseLoop(buf: Bytes, depth: nat, start: nat, count: nat) returns (r: Result)
    requires depth < MAX_DEPTH && 1 <= start <= |buf|
    ensures r == ParseElements(buf, depth, start, count, [])
    decreases MAX_DEPTH - depth, 0
  {
    hide Parse;
    var elements: seq<Value> := [];
    var consumed := start;
    for i := 0 to count
      invariant |elements| == i && 1 <= consumed <= |buf|
      invariant ParseElements(buf, depth, start, count, []) == ParseElements(buf, depth, consumed, count, elements)
    {
      var element := ParseValue(buf[consumed..], depth + 1);
      match element
      case End(torn) => return End(torn);
      case Refused(e) => return Refused(Element(i, e));
      case Got(v, n) =>
        elements := elements + [v];
        consumed := consumed + n;
    }
    return Got(Array(elements), consumed);
  }
}
