/** What the streaming parser (internal/protocol/parser.go) accepts, and where it sees the end, by the grammar. */
module FileGrammar {
  import opened Options
  import opened Order
  import opened Decimal
  import opened Resp
  import opened Decoder
  import opened Grammar
  import opened AofLoader

  const FILE := Limits(Some(LINE_CAP), MAX_BULK, MAX_ELEMENTS)

  /** A line is what stands before the first line feed, which a carriage return precedes, if it is not too long. */
  lemma ReadLineExactly(buf: Bytes, text: Bytes, n: nat)
    ensures ReadLine(buf) == LineOk(text, n) <==>
              n == |text| + 2 <= |buf| && n <= LINE_CAP && buf[..n] == text + CRLF && LF !in text
    ensures ReadLine(buf).LineEnd? <==> LF !in buf && |buf| < LINE_CAP
  {
    LineExactly(buf, text, n);
    var i := LineFeed(buf);
    if i < |buf| && Terminated(buf, i) {
      assert DecodeLine(buf) == Line(buf[..i - 1], i + 1);
    }
  }

  // ----- what is read is on the wire -----

  lemma LineRead(buf: Bytes)
    requires buf != [] && ReadLine(buf[1..]).LineOk?
    ensures
      var LineOk(text, n) := ReadLine(buf[1..]);
      Header(buf[..1 + n], buf[0], text, FILE)
  {
    var LineOk(text, n) := ReadLine(buf[1..]);
    ReadLineExactly(buf[1..], text, n);
    assert buf[..1 + n] == [buf[0]] + buf[1..][..n];
  }

  lemma NumberLineRead(buf: Bytes, v: int64)
    requires buf != [] && ReadLine(buf[1..]).LineOk? && ParseInt(ReadLine(buf[1..]).text) == Ok(v)
    ensures Numbered(buf[..1 + ReadLine(buf[1..]).n], buf[0], v, FILE)
  {
    hide ReadLine, Header, Denotes, ParseInt;
    LineRead(buf);
    ParseIntMeaning(ReadLine(buf[1..]).text, v);
  }

  lemma {:induction false} ReadsAreWire(buf: Bytes, depth: nat)
    requires depth <= MAX_DEPTH && Parse(buf, depth).Got?
    ensures Wire(Parse(buf, depth).value, buf[..Parse(buf, depth).n], depth, FILE)
    decreases MAX_DEPTH - depth, 1, 0
  {
    hide ParseInt, Denotes, Header, Numbered, BulkWire, ReadLine, ParseBulk;
    if OneLine(buf[0]) {
      LineRead(buf);
      if buf[0] == 58 {
        NumberLineRead(buf, ParseInt(ReadLine(buf[1..]).text).value);
      }
    } else if buf[0] == 36 {
      BulkReadIsWire(buf);
    } else {
      var LineOk(text, n) := ReadLine(buf[1..]);
      var count := ParseInt(text).value;
      NumberLineRead(buf, count);
      if count >= 0 {
        var head := buf[..1 + n];
        WireNone(depth + 1, FILE);
        assert buf[|head|..|head|] == [];
        ElementsReadAreWire(buf, depth, head, 1 + n, count, []);
      }
    }
  }

  lemma BulkReadIsWire(buf: Bytes)
    requires buf != [] && buf[0] == 36 && ParseBulk(buf).Got?
    ensures ParseBulk(buf).value.Bulk? || ParseBulk(buf).value.NullBulk?
    ensures Wire(ParseBulk(buf).value, buf[..ParseBulk(buf).n], 0, FILE)
  {
    hide ParseInt, Denotes, Header, ReadLine;
    var LineOk(text, n) := ReadLine(buf[1..]);
    var length := ParseInt(text).value;
    NumberLineRead(buf, length);
    if length >= 0 {
      var head, rest := buf[..1 + n], buf[1 + n..];
      assert buf[..1 + n + length + 2] == head + rest[..length] + CRLF;
    }
  }

  lemma {:induction false} ElementsReadAreWire(buf: Bytes, depth: nat, head: Bytes, consumed: nat, count: nat,
                                               acc: seq<Value>)
    requires depth < MAX_DEPTH && 1 <= |head| <= consumed <= |buf| && head <= buf && |acc| <= count <= MAX_ELEMENTS
    requires Numbered(head, 42, count, FILE) && WireAll(acc, buf[|head|..consumed], depth + 1, FILE)
    requires ParseElements(buf, depth, consumed, count, acc).Got?
    ensures
      var r := ParseElements(buf, depth, consumed, count, acc);
      Wire(r.value, buf[..r.n], depth, FILE)
    decreases MAX_DEPTH - depth, 0, count - |acc|
  {
    hide Parse, Numbered, WireAll;
    if |acc| == count {
      assert buf[..consumed] == head + buf[|head|..consumed];
    } else {
      ReadsAreWire(buf[consumed..], depth + 1);
      var Got(v, n) := Parse(buf[consumed..], depth + 1);
      WireMore(acc, buf[|head|..consumed], v, buf[consumed..][..n], depth + 1, FILE);
      Adjoining(buf, |head|, consumed, n);
      ElementsReadAreWire(buf, depth, head, consumed + n, count, acc + [v]);
    }
  }

  // ----- what is on the wire is read -----

  lemma HeaderReads(head: Bytes, prefix: byte, text: Bytes, rest: Bytes)
    requires Header(head, prefix, text, FILE)
    ensures head + rest != [] && (head + rest)[0] == prefix
    ensures ReadLine((head + rest)[1..]) == LineOk(text, |head| - 1)
  {
    var buf := head + rest;
    assert buf[1..][..|text| + 2] == text + CRLF;
    ReadLineExactly(buf[1..], text, |text| + 2);
  }

  lemma NumberReads(head: Bytes, prefix: byte, n: int, rest: Bytes) returns (text: Bytes)
    requires Numbered(head, prefix, n, FILE)
    ensures head + rest != [] && (head + rest)[0] == prefix
    ensures ReadLine((head + rest)[1..]) == LineOk(text, |head| - 1)
    ensures -MAX_ABS <= n <= MAX_INT && ParseInt(text).Ok? && ParseInt(text).value == n
  {
    hide ReadLine, ParseInt;
    text :| Denotes(text, n) && Header(head, prefix, text, FILE);
    HeaderReads(head, prefix, text, rest);
    ParseIntMeaning(text, n);
  }

  lemma {:induction false} WireReads(v: Value, b: Bytes, rest: Bytes, depth: nat)
    requires depth <= MAX_DEPTH && Wire(v, b, depth, FILE)
    ensures Parse(b + rest, depth) == Got(v, |b|)
    decreases v, 1
  {
    hide ParseInt, Denotes, Header, Numbered, ReadLine, ParseElements, ParseBulk;
    match v
    case Simple(text) => HeaderReads(b, 43, text, rest);
    case Error(message) => HeaderReads(b, 45, message, rest);
    case Integer(n) => var text := NumberReads(b, 58, n, rest);
    case Bulk(data) => BulkWireReads(data, b, rest);
    case NullBulk => NullBulkReads(b, rest);
    case Array(elements) =>
      var head, body :|
        Numbered(head, 42, |elements|, FILE) && b == head + body && WireAll(elements, body, depth + 1, FILE);
      var text := NumberReads(head, 42, |elements|, body + rest);
      assert b + rest == head + (body + rest);
      ElementsReads(elements, head, body, rest, depth, |elements|);
      EndOfElementsRead(b + rest, depth, |b|, elements);
    case NullArray => var text := NumberReads(b, 42, -1, rest);
    case Boolean(flag) => HeaderReads(b, 35, [if flag then 116 else 102], rest);
    case Null => HeaderReads(b, 95, [], rest);
  }

  lemma EndOfElementsRead(buf: Bytes, depth: nat, consumed: nat, acc: seq<Value>)
    requires depth < MAX_DEPTH && 1 <= consumed <= |buf|
    ensures ParseElements(buf, depth, consumed, |acc|, acc) == Got(Array(acc), consumed)
  {
  }

  lemma BulkWireReads(data: Bytes, b: Bytes, rest: Bytes)
    requires BulkWire(data, b, FILE)
    ensures b + rest != [] && (b + rest)[0] == 36 && ParseBulk(b + rest) == Got(Bulk(data), |b|)
  {
    hide ParseInt, ReadLine, Numbered;
    var head :| Numbered(head, 36, |data|, FILE) && b == head + data + CRLF;
    var text := NumberReads(head, 36, |data|, data + CRLF + rest);
    var buf := b + rest;
    assert buf == head + (data + CRLF + rest);
    var remaining := buf[|head|..];
    assert remaining == data + CRLF + rest;
    assert remaining[|data|] == CR && remaining[|data| + 1] == LF && remaining[..|data|] == data;
  }

  lemma NullBulkReads(b: Bytes, rest: Bytes)
    requires Numbered(b, 36, -1, FILE)
    ensures b + rest != [] && (b + rest)[0] == 36 && ParseBulk(b + rest) == Got(NullBulk, |b|)
  {
    hide ParseInt, ReadLine, Numbered;
    var text := NumberReads(b, 36, -1, rest);
  }

  lemma {:induction false} ElementsReads(vs: seq<Value>, head: Bytes, body: Bytes, rest: Bytes, depth: nat, count: nat)
    requires depth < MAX_DEPTH && head != [] && |vs| <= count && WireAll(vs, body, depth + 1, FILE)
    ensures ParseElements(head + body + rest, depth, |head|, count, []) ==
            ParseElements(head + body + rest, depth, |head + body|, count, vs)
    decreases vs, 0
  {
    hide Parse, Wire;
    if vs == [] {
      assert head + body == head;
    } else {
      var n := |vs| - 1;
      var k :| 0 <= k <= |body|
               && WireAll(vs[..n], body[..k], depth + 1, FILE) && Wire(vs[n], body[k..], depth + 1, FILE);
      var buf := head + body + rest;
      assert buf == head + body[..k] + (body[k..] + rest);
      ElementsReads(vs[..n], head, body[..k], body[k..] + rest, depth, count);
      assert buf[|head + body[..k]|..] == body[k..] + rest;
      WireReads(vs[n], body[k..], rest, depth + 1);
      assert vs[..n] + [vs[n]] == vs;
      NextElementReads(buf, depth, |head + body[..k]|, count, vs[..n], vs[n], |body[k..]|);
    }
  }

  lemma NextElementReads(buf: Bytes, depth: nat, consumed: nat, count: nat, acc: seq<Value>, v: Value, n: nat)
    requires depth < MAX_DEPTH && 1 <= consumed <= |buf| && |acc| < count
    requires Parse(buf[consumed..], depth + 1) == Got(v, n)
    ensures ParseElements(buf, depth, consumed, count, acc) ==
            ParseElements(buf, depth, consumed + n, count, acc + [v])
  {
    hide Parse;
  }

  /** The parser reads a value exactly where the grammar has one within its limits. */
  lemma ReadExactly(buf: Bytes, depth: nat, v: Value, n: nat)
    requires depth <= MAX_DEPTH
    ensures Parse(buf, depth) == Got(v, n) <==> n <= |buf| && Wire(v, buf[..n], depth, FILE)
  {
    hide Parse, Wire;
    if Parse(buf, depth) == Got(v, n) {
      ReadsAreWire(buf, depth);
    }
    if n <= |buf| && Wire(v, buf[..n], depth, FILE) {
      WireReads(v, buf[..n], buf[n..], depth);
      assert buf[..n] + buf[n..] == buf;
    }
  }

  // ----- where the stream ends -----

  /** The stream ends in the middle of a line that may still become one. */
  ghost predicate LineCut(b: Bytes) {
    LF !in b && |b| < LINE_CAP
  }

  /** The stream ends inside a value; `torn` if some but not all bytes of a bulk string are there. */
  ghost predicate Cut(b: Bytes, depth: nat, torn: bool)
    requires depth <= MAX_DEPTH
    decreases MAX_DEPTH - depth, 1
  {
    if b == [] then !torn
    else
      || (OneLine(b[0]) && LineCut(b[1..]) && !torn)
      || (b[0] == 36 && LineCut(b[1..]) && !torn)
      || BulkCut(b, torn)
      || (b[0] == 42 && depth < MAX_DEPTH && LineCut(b[1..]) && !torn)
      || (depth < MAX_DEPTH && exists k | 0 <= k <= |b| :: ElementCut(b, depth, k, torn))
  }

  ghost predicate BulkCut(b: Bytes, torn: bool) {
    exists head, length ::
      && Numbered(head, 36, length, FILE) && 0 <= length <= MAX_BULK && head <= b && |b| < |head| + length + 2
      && (torn <==> |head| < |b| < |head| + length)
  }

  ghost predicate ElementCut(b: Bytes, depth: nat, k: nat, torn: bool)
    requires depth < MAX_DEPTH && k <= |b|
    decreases MAX_DEPTH - depth, 0
  {
    Opened(b[..k], depth, FILE) && Cut(b[k..], depth + 1, torn)
  }

  lemma {:induction false} CutEnds(buf: Bytes, depth: nat, torn: bool)
    requires depth <= MAX_DEPTH && Cut(buf, depth, torn)
    ensures Parse(buf, depth) == End(torn)
    decreases MAX_DEPTH - depth
  {
    hide ParseInt, Denotes, Header, Numbered, ReadLine, ParseElements, ParseBulk, WireAll, BulkCut, Opened;
    if buf == [] {
      return;
    }
    ReadLineExactly(buf[1..], [], 0);
    if OneLine(buf[0]) && LineCut(buf[1..]) && !torn {
    } else if buf[0] == 36 && LineCut(buf[1..]) && !torn {
      NoLengthRead(buf);
    } else if BulkCut(buf, torn) {
      BulkCutEnds(buf, torn);
    } else if buf[0] == 42 && depth < MAX_DEPTH && LineCut(buf[1..]) && !torn {
    } else {
      var k :| 0 <= k <= |buf| && ElementCut(buf, depth, k, torn);
      CutEnds(buf[k..], depth + 1, torn);
      ArrayCutEnds(buf, depth, k, torn);
    }
  }

  lemma NoLengthRead(buf: Bytes)
    requires buf != [] && LineCut(buf[1..])
    ensures ParseBulk(buf) == End(false)
  {
    ReadLineExactly(buf[1..], [], 0);
  }

  lemma BulkCutEnds(buf: Bytes, torn: bool)
    requires BulkCut(buf, torn)
    ensures buf != [] && buf[0] == 36 && ParseBulk(buf) == End(torn)
  {
    hide ParseInt, ReadLine, Numbered;
    var head, length :| && Numbered(head, 36, length, FILE) && 0 <= length <= MAX_BULK && head <= buf
                        && |buf| < |head| + length + 2 && (torn <==> |head| < |buf| < |head| + length);
    var rest := buf[|head|..];
    assert buf == head + rest;
    var text := NumberReads(head, 36, length, rest);
  }

  lemma ArrayCutEnds(buf: Bytes, depth: nat, k: nat, torn: bool)
    requires depth < MAX_DEPTH && k <= |buf| && Opened(buf[..k], depth, FILE)
    requires Parse(buf[k..], depth + 1) == End(torn)
    ensures buf != [] && buf[0] == 42 && Parse(buf, depth) == End(torn)
  {
    hide ParseInt, Denotes, Header, Numbered, ReadLine, ParseElements, WireAll;
    var begun, rest := buf[..k], buf[k..];
    var h, count, vs :| && 0 <= h <= |begun| && Numbered(begun[..h], 42, count, FILE)
                        && |vs| < count <= MAX_ELEMENTS && WireAll(vs, begun[h..], depth + 1, FILE);
    var head, body := begun[..h], begun[h..];
    InParts(buf, k, h);
    var text := NumberReads(head, 42, count, body + rest);
    ElementsReads(vs, head, body, rest, depth, count);
    ElementEnds(buf, depth, k, count, vs, torn);
  }

  lemma ElementEnds(buf: Bytes, depth: nat, consumed: nat, count: nat, acc: seq<Value>, torn: bool)
    requires depth < MAX_DEPTH && 1 <= consumed <= |buf| && |acc| < count
    requires Parse(buf[consumed..], depth + 1) == End(torn)
    ensures ParseElements(buf, depth, consumed, count, acc) == End(torn)
  {
    hide Parse;
  }

  lemma {:induction false} EndsAreCut(buf: Bytes, depth: nat)
    requires depth <= MAX_DEPTH && Parse(buf, depth).End?
    ensures Cut(buf, depth, Parse(buf, depth).torn)
    decreases MAX_DEPTH - depth, 1, 0
  {
    hide ParseInt, Denotes, Header, Numbered, ReadLine, BulkCut, ParseBulk;
    if buf != [] {
      ReadLineExactly(buf[1..], [], 0);
      if buf[0] == 36 {
        BulkIsCut(buf);
      } else if buf[0] == 42 && ReadLine(buf[1..]).LineOk? {
        var LineOk(text, n) := ReadLine(buf[1..]);
        var count := ParseInt(text).value;
        NumberLineRead(buf, count);
        var head := buf[..1 + n];
        WireNone(depth + 1, FILE);
        assert buf[|head|..|head|] == [];
        ElementsCut(buf, depth, head, 1 + n, count, []);
      }
    }
  }

  lemma BulkIsCut(buf: Bytes)
    requires buf != [] && buf[0] == 36 && ParseBulk(buf).End?
    ensures (LineCut(buf[1..]) && !ParseBulk(buf).torn) || BulkCut(buf, ParseBulk(buf).torn)
  {
    hide ParseInt, Denotes, Header, ReadLine;
    ReadLineExactly(buf[1..], [], 0);
    if ReadLine(buf[1..]).LineOk? {
      var LineOk(text, n) := ReadLine(buf[1..]);
      NumberLineRead(buf, ParseInt(text).value);
      assert buf[..1 + n] <= buf;
    }
  }

  lemma {:induction false} ElementsCut(buf: Bytes, depth: nat, head: Bytes, consumed: nat, count: nat, acc: seq<Value>)
    requires depth < MAX_DEPTH && 1 <= |head| <= consumed <= |buf| && head <= buf && |acc| <= count <= MAX_ELEMENTS
    requires Numbered(head, 42, count, FILE) && WireAll(acc, buf[|head|..consumed], depth + 1, FILE)
    requires ParseElements(buf, depth, consumed, count, acc).End?
    ensures Cut(buf, depth, ParseElements(buf, depth, consumed, count, acc).torn)
    decreases MAX_DEPTH - depth, 0, count - |acc|
  {
    hide Parse, Numbered, WireAll, BulkCut, Opened;
    if |acc| < count {
      var body := buf[|head|..consumed];
      var begun := buf[..consumed];
      assert head + body == begun && begun[..|head|] == head && begun[|head|..] == body;
      match Parse(buf[consumed..], depth + 1)
      case Got(v, n) =>
        ReadsAreWire(buf[consumed..], depth + 1);
        WireMore(acc, body, v, buf[consumed..][..n], depth + 1, FILE);
        Adjoining(buf, |head|, consumed, n);
        ElementsCut(buf, depth, head, consumed + n, count, acc + [v]);
      case End(torn) =>
        EndsAreCut(buf[consumed..], depth + 1);
        OpenedBy(begun, head, count, acc, depth, FILE);
        assert ElementCut(buf, depth, consumed, torn);
      case Refused(_) =>
    }
  }

  /** The parser sees the end of the stream exactly where a value is cut short, and tells a torn payload. */
  lemma EndExactly(buf: Bytes, depth: nat, torn: bool)
    requires depth <= MAX_DEPTH
    ensures Parse(buf, depth) == End(torn) <==> Cut(buf, depth, torn)
  {
    hide Parse, Cut;
    if Parse(buf, depth) == End(torn) {
      EndsAreCut(buf, depth);
    }
    if Cut(buf, depth, torn) {
      CutEnds(buf, depth, torn);
    }
  }

  /** It refuses exactly what neither begins with a value nor is cut short, and then no more bytes will make it one. */
  lemma ParserRefusalExactly(buf: Bytes, depth: nat)
    requires depth <= MAX_DEPTH
    ensures Parse(buf, depth).Refused? <==>
              && (forall v, n: nat :: !(n <= |buf| && Wire(v, buf[..n], depth, FILE)))
              && !Cut(buf, depth, false) && !Cut(buf, depth, true)
    ensures Parse(buf, depth).Refused? ==>
              forall ext, v, n: nat :: !(n <= |buf + ext| && Wire(v, (buf + ext)[..n], depth, FILE))
  {
    hide Parse, Wire, Cut;
    forall v, n: nat {
      ReadExactly(buf, depth, v, n);
    }
    EndExactly(buf, depth, false);
    EndExactly(buf, depth, true);
    match Parse(buf, depth) {
      case Got(v, n) => assert n <= |buf| && Wire(v, buf[..n], depth, FILE);
      case _ =>
    }
    if Parse(buf, depth).Refused? {
      forall ext, v, n: nat ensures !(n <= |buf + ext| && Wire(v, (buf + ext)[..n], depth, FILE)) {
        ParseStable(buf, ext, depth);
        ReadExactly(buf + ext, depth, v, n);
      }
    }
  }

  // ----- torn line ends -----

  /** The first line feed, at `i`, ends a line without a carriage return before it. */
  ghost predicate BareAt(b: Bytes, i: nat)
    requires i < |b|
  {
    b[i] == LF && LF !in b[..i] && i < LINE_CAP && (i == 0 || b[i - 1] != CR)
  }

  ghost predicate BareLine(b: Bytes) {
    exists i | 0 <= i < |b| :: BareAt(b, i)
  }

  lemma BareLineExactly(b: Bytes)
    ensures BareLine(b) <==> ReadLine(b) == LineBad(MissingCRLF)
  {
    hide LineFeed, ReadLine, BareAt;
    ReadBare(b);
    if BareLine(b) {
      var k :| 0 <= k < |b| && BareAt(b, k);
      FirstFeed(b, k);
    }
  }

  lemma ReadBare(b: Bytes)
    ensures ReadLine(b) == LineBad(MissingCRLF) <==>
              var i := LineFeed(b);
              i < |b| && BareAt(b, i)
  {
  }

  lemma FirstFeed(b: Bytes, k: nat)
    requires k < |b| && BareAt(b, k)
    ensures LineFeed(b) == k
  {
    assert forall j | 0 <= j < k :: b[j] == b[..k][j];
  }

  /** What is wrong is only a line end, however deep: a line without it, or a bulk string. */
  ghost predicate Unended(b: Bytes, depth: nat)
    requires depth <= MAX_DEPTH
    decreases MAX_DEPTH - depth, 1
  {
    b != [] &&
    (|| ((OneLine(b[0]) || b[0] == 36 || (b[0] == 42 && depth < MAX_DEPTH)) && BareLine(b[1..]))
     || BulkUnended(b)
     || (depth < MAX_DEPTH && exists k | 0 <= k <= |b| :: ElementUnended(b, depth, k)))
  }

  ghost predicate BulkUnended(b: Bytes) {
    exists head, length ::
      && Numbered(head, 36, length, FILE) && 0 <= length <= MAX_BULK && head <= b
      && |head| + length + 2 <= |b| && b[|head| + length..|head| + length + 2] != CRLF
  }

  ghost predicate ElementUnended(b: Bytes, depth: nat, k: nat)
    requires depth < MAX_DEPTH && k <= |b|
    decreases MAX_DEPTH - depth, 0
  {
    Opened(b[..k], depth, FILE) && Unended(b[k..], depth + 1)
  }

  /** The value is refused, and only for a line end. */
  ghost predicate RefusedTorn(r: Result) {
    r.Refused? && TornTerminator(r.error)
  }

  lemma {:induction false} UnendedIsTorn(buf: Bytes, depth: nat)
    requires depth <= MAX_DEPTH && Unended(buf, depth)
    ensures RefusedTorn(Parse(buf, depth))
    decreases MAX_DEPTH - depth
  {
    hide ParseInt, Denotes, Header, Numbered, ReadLine, ParseElements, ParseBulk, WireAll, BulkUnended, Opened;
    hide BareLine;
    BareLineExactly(buf[1..]);
    if (OneLine(buf[0]) || (buf[0] == 42 && depth < MAX_DEPTH)) && BareLine(buf[1..]) {
    } else if buf[0] == 36 && BareLine(buf[1..]) {
      BareLength(buf);
    } else if BulkUnended(buf) {
      BulkUnendedIsTorn(buf);
    } else {
      var k :| 0 <= k <= |buf| && ElementUnended(buf, depth, k);
      UnendedIsTorn(buf[k..], depth + 1);
      ArrayIsTorn(buf, depth, k);
    }
  }

  lemma BareLength(buf: Bytes)
    requires buf != [] && BareLine(buf[1..])
    ensures RefusedTorn(ParseBulk(buf))
  {
    BareLineExactly(buf[1..]);
  }

  lemma BulkUnendedIsTorn(buf: Bytes)
    requires BulkUnended(buf)
    ensures buf != [] && buf[0] == 36 && RefusedTorn(ParseBulk(buf))
  {
    hide ParseInt, ReadLine, Numbered;
    var head, length :| && Numbered(head, 36, length, FILE) && 0 <= length <= MAX_BULK && head <= buf
                        && |head| + length + 2 <= |buf| && buf[|head| + length..|head| + length + 2] != CRLF;
    var rest := buf[|head|..];
    assert buf == head + rest;
    var text := NumberReads(head, 36, length, rest);
    assert buf[|head| + length..|head| + length + 2] == [rest[length], rest[length + 1]];
  }

  lemma ArrayIsTorn(buf: Bytes, depth: nat, k: nat)
    requires depth < MAX_DEPTH && k <= |buf| && Opened(buf[..k], depth, FILE)
    requires RefusedTorn(Parse(buf[k..], depth + 1))
    ensures buf != [] && buf[0] == 42 && RefusedTorn(Parse(buf, depth))
  {
    hide ParseInt, Denotes, Header, Numbered, ReadLine, ParseElements, WireAll;
    var begun, rest := buf[..k], buf[k..];
    var h, count, vs :| && 0 <= h <= |begun| && Numbered(begun[..h], 42, count, FILE)
                        && |vs| < count <= MAX_ELEMENTS && WireAll(vs, begun[h..], depth + 1, FILE);
    var head, body := begun[..h], begun[h..];
    InParts(buf, k, h);
    var text := NumberReads(head, 42, count, body + rest);
    ElementsReads(vs, head, body, rest, depth, count);
    ElementIsTorn(buf, depth, k, count, vs);
  }

  lemma ElementIsTorn(buf: Bytes, depth: nat, consumed: nat, count: nat, acc: seq<Value>)
    requires depth < MAX_DEPTH && 1 <= consumed <= |buf| && |acc| < count
    requires RefusedTorn(Parse(buf[consumed..], depth + 1))
    ensures RefusedTorn(ParseElements(buf, depth, consumed, count, acc))
  {
    hide Parse;
  }

  lemma {:induction false} TornIsUnended(buf: Bytes, depth: nat)
    requires depth <= MAX_DEPTH && RefusedTorn(Parse(buf, depth))
    ensures Unended(buf, depth)
    decreases MAX_DEPTH - depth, 1, 0
  {
    hide ParseInt, Denotes, Header, Numbered, ReadLine, BulkUnended, ParseBulk, BareLine;
    BareLineExactly(buf[1..]);
    if buf[0] == 36 {
      BulkTornIsUnended(buf);
    } else if buf[0] == 42 && depth < MAX_DEPTH && ReadLine(buf[1..]).LineOk? {
      var LineOk(text, n) := ReadLine(buf[1..]);
      var count := ParseInt(text).value;
      NumberLineRead(buf, count);
      var head := buf[..1 + n];
      WireNone(depth + 1, FILE);
      assert buf[|head|..|head|] == [];
      ElementsTorn(buf, depth, head, 1 + n, count, []);
    } else {
      OtherLinesNotTorn(buf[1..]);
    }
  }

  lemma OtherLinesNotTorn(b: Bytes)
    ensures ReadLine(b).LineBad? && TornTerminator(ReadLine(b).error) ==> ReadLine(b) == LineBad(MissingCRLF)
  {
  }

  lemma BulkTornIsUnended(buf: Bytes)
    requires buf != [] && buf[0] == 36 && RefusedTorn(ParseBulk(buf))
    ensures BareLine(buf[1..]) || BulkUnended(buf)
  {
    hide ParseInt, Denotes, Header, ReadLine, BareLine;
    BareLineExactly(buf[1..]);
    OtherLinesNotTorn(buf[1..]);
    if ReadLine(buf[1..]).LineOk? {
      var LineOk(text, n) := ReadLine(buf[1..]);
      var length := ParseInt(text).value;
      NumberLineRead(buf, length);
      var head := buf[..1 + n];
      assert head <= buf;
      var rest := buf[1 + n..];
      assert buf[|head| + length..|head| + length + 2] == [rest[length], rest[length + 1]];
    }
  }

  lemma {:induction false} ElementsTorn(buf: Bytes, depth: nat, head: Bytes, consumed: nat, count: nat,
                                        acc: seq<Value>)
    requires depth < MAX_DEPTH && 1 <= |head| <= consumed <= |buf| && head <= buf && |acc| <= count <= MAX_ELEMENTS
    requires Numbered(head, 42, count, FILE) && WireAll(acc, buf[|head|..consumed], depth + 1, FILE)
    requires RefusedTorn(ParseElements(buf, depth, consumed, count, acc))
    ensures Unended(buf, depth)
    decreases MAX_DEPTH - depth, 0, count - |acc|
  {
    hide Parse, Numbered, WireAll, BulkUnended, Opened, BareLine;
    if |acc| < count {
      var body := buf[|head|..consumed];
      var begun := buf[..consumed];
      assert head + body == begun && begun[..|head|] == head && begun[|head|..] == body;
      match Parse(buf[consumed..], depth + 1)
      case Got(v, n) =>
        ReadsAreWire(buf[consumed..], depth + 1);
        WireMore(acc, body, v, buf[consumed..][..n], depth + 1, FILE);
        Adjoining(buf, |head|, consumed, n);
        ElementsTorn(buf, depth, head, consumed + n, count, acc + [v]);
      case Refused(_) =>
        TornIsUnended(buf[consumed..], depth + 1);
        OpenedBy(begun, head, count, acc, depth, FILE);
        assert ElementUnended(buf, depth, consumed);
      case End(_) =>
    }
  }

  /** A refusal counts as a torn tail exactly when only a line end is wrong. */
  lemma TornExactly(buf: Bytes, depth: nat)
    requires depth <= MAX_DEPTH
    ensures RefusedTorn(Parse(buf, depth)) <==> Unended(buf, depth)
  {
    hide Parse, Unended, RefusedTorn;
    if RefusedTorn(Parse(buf, depth)) {
      TornIsUnended(buf, depth);
    }
    if Unended(buf, depth) {
      UnendedIsTorn(buf, depth);
    }
  }

  // ----- the file -----

  /** Values on the wire are replayed in order, whatever comes behind them. */
  lemma {:induction false} LoadGoesOn<S>(vs: seq<Value>, b: Bytes, rest: Bytes, state: S, next: S,
                                         replay: (S, Value) -> Option<S>)
    requires WireAll(vs, b, 0, FILE) && ReplayAll(vs, state, replay) == Some(next)
    ensures Load(b + rest, state, replay) == Load(rest, next, replay).After(vs)
    decreases |vs|
  {
    hide Parse, Wire;
    if vs == [] {
      assert b + rest == rest;
      assert [] + Load(rest, next, replay).replayed == Load(rest, next, replay).replayed;
    } else {
      var n := |vs| - 1;
      var k :| 0 <= k <= |b| && WireAll(vs[..n], b[..k], 0, FILE) && Wire(vs[n], b[k..], 0, FILE);
      assert vs == vs[..n] + [vs[n]];
      ReplayMore(vs[..n], vs[n], state, replay);
      var mid := ReplayAll(vs[..n], state, replay).value;
      LoadGoesOn(vs[..n], b[..k], b[k..] + rest, state, mid, replay);
      assert b + rest == b[..k] + (b[k..] + rest);
      WireReads(vs[n], b[k..], rest, 0);
      var file := b[k..] + rest;
      assert file[|b[k..]|..] == rest;
      var later := Load(rest, next, replay).replayed;
      assert vs[..n] + ([vs[n]] + later) == vs + later;
    }
  }

  /**
   How a file loads: the values on the wire are replayed, and what is behind them decides.
   A value cut short ends it well, so does one with a bad line end; any other refusal of
   the parser or the executor is an error.
   */
  lemma LoadExactly<S>(vs: seq<Value>, b: Bytes, rest: Bytes, state: S, next: S, replay: (S, Value) -> Option<S>)
    requires WireAll(vs, b, 0, FILE) && ReplayAll(vs, state, replay) == Some(next)
    ensures
      var r := Load(b + rest, state, replay);
      && (forall torn :: Cut(rest, 0, torn) ==> r == Loading(vs, next, Loaded(torn)))
      && (Unended(rest, 0) ==> r == Loading(vs, next, Loaded(true)))
      && (Parse(rest, 0).Refused? && !Unended(rest, 0) ==> r == Loading(vs, next, ParseFailed(Parse(rest, 0).error)))
      && (forall v, n: nat | n <= |rest| && Wire(v, rest[..n], 0, FILE) && replay(next, v) == None ::
            r == Loading(vs, next, ReplayFailed))
  {
    hide Parse, Wire, WireAll, Cut, Unended;
    LoadGoesOn(vs, b, rest, state, next, replay);
    EndExactly(rest, 0, false);
    EndExactly(rest, 0, true);
    TornExactly(rest, 0);
    forall v, n: nat {
      ReadExactly(rest, 0, v, n);
    }
    assert vs + [] == vs;
  }
}
