/**
 RESP values and their wire form (internal/protocol/types.go, writer.go, grammar.go).
 */
module Resp {
  import opened Order
  import opened Decimal

  const CR: byte := 13
  const LF: byte := 10
  const CRLF: Bytes := [13, 10]

  datatype Value =
    | Simple(text: Bytes)
    | Error(message: Bytes)
    | Integer(value: int64)
    | Bulk(data: Bytes)
    | NullBulk
    | TextBulk(data: Bytes)
    | NullTextBulk
    | Array(elements: seq<Value>)
    | NullArray
    | Boolean(flag: bool)
    | Null

  /** The wire form of a value. */
  function Encode(v: Value): (b: Bytes)
    ensures b != []
  {
    match v
    case Simple(text) => [43] + text + CRLF
    case Error(message) => [45] + message + CRLF
    case Integer(value) => [58] + FormatInt(value) + CRLF
    case Bulk(data) => [36] + FormatInt(|data|) + CRLF + data + CRLF
    case NullBulk => [36] + FormatInt(-1) + CRLF
    case TextBulk(data) => [36] + FormatInt(|data|) + CRLF + data + CRLF
    case NullTextBulk => [36] + FormatInt(-1) + CRLF
    case Array(elements) => [42] + FormatInt(|elements|) + CRLF + EncodeAll(elements)
    case NullArray => [42] + FormatInt(-1) + CRLF
    case Boolean(flag) => [35] + [if flag then 116 else 102] + CRLF
    case Null => [95] + CRLF
  }

  function EncodeAll(vs: seq<Value>): Bytes {
    if vs == [] then [] else EncodeAll(vs[..|vs| - 1]) + Encode(vs[|vs| - 1])
  }

  /** `appendEncodedValue`: appends the wire form to a buffer. */
  method AppendEncoded(dst: Bytes, v: Value) returns (r: Bytes)
    ensures r == dst + Encode(v)
    decreases v
  {
    assert FormatInt(-1) == [45, 49];
    hide FormatInt, FormatNat;
    match v
    case Simple(text) => r := AppendStringLine(dst, 43, text);
    case Error(message) => r := AppendStringLine(dst, 45, message);
    case Integer(value) => r := AppendIntLine(dst, 58, value);
    case Bulk(data) => r := AppendBulk(dst, data);
    case NullBulk => r := dst + [36, 45, 49, 13, 10];
    case TextBulk(data) => r := AppendBulk(dst, data);
    case NullTextBulk => r := dst + [36, 45, 49, 13, 10];
    case Array(elements) => r := AppendElements(dst, elements);
    case NullArray => r := dst + [42, 45, 49, 13, 10];
    case Boolean(flag) => r := dst + [35, if flag then 116 else 102, 13, 10];
    case Null => r := dst + [95, 13, 10];
  }

  method AppendElements(dst: Bytes, elements: seq<Value>) returns (r: Bytes)
    ensures r == dst + ([42] + FormatInt(|elements|) + CRLF + EncodeAll(elements))
    decreases elements
  {
    hide Encode, FormatInt;
    r := AppendIntLine(dst, 42, |elements|);
    ghost var head := r;
    for i := 0 to |elements|
      invariant r == head + EncodeAll(elements[..i])
    {
      assert elements[..i + 1][..i] == elements[..i];
      r := AppendEncoded(r, elements[i]);
    }
    assert elements[..|elements|] == elements;
  }

  method AppendStringLine(dst: Bytes, prefix: byte, text: Bytes) returns (r: Bytes)
    ensures r == dst + ([prefix] + text + CRLF)
  {
    r := dst + [prefix];
    r := r + text;
    r := r + [13, 10];
  }

  method AppendIntLine(dst: Bytes, prefix: byte, value: int) returns (r: Bytes)
    ensures r == dst + ([prefix] + FormatInt(value) + CRLF)
  {
    r := AppendStringLine(dst, prefix, FormatInt(value));
  }

  method AppendBulk(dst: Bytes, data: Bytes) returns (r: Bytes)
    ensures r == dst + ([36] + FormatInt(|data|) + CRLF + data + CRLF)
  {
    r := AppendIntLine(dst, 36, |data|);
    r := r + data;
    r := r + [13, 10];
  }

  /** `EncodedLen`: the size of the wire form, without building it. */
  method EncodedLen(v: Value) returns (n: nat)
    ensures n == |Encode(v)|
    decreases v
  {
    match v
    case Simple(text) => n := 1 + |text| + 2;
    case Error(message) => n := 1 + |message| + 2;
    case Integer(value) => n := 1 + |FormatInt(value)| + 2;
    case Bulk(data) => n := 1 + |FormatInt(|data|)| + 2 + |data| + 2;
    case NullBulk => n := 5;
    case TextBulk(data) => n := 1 + |FormatInt(|data|)| + 2 + |data| + 2;
    case NullTextBulk => n := 5;
    case Array(elements) =>
      n := 1 + |FormatInt(|elements|)| + 2;
      for i := 0 to |elements|
        invariant n == 1 + |FormatInt(|elements|)| + 2 + |EncodeAll(elements[..i])|
      {
        assert elements[..i + 1][..i] == elements[..i];
        var m := EncodedLen(elements[i]);
        n := n + m;
      }
      assert elements[..|elements|] == elements;
    case NullArray => n := 5;
    case Boolean(_) => n := 4;
    case Null => n := 3;
  }

  /** What a peer reads back: a text bulk string arrives as a bulk string. */
  function Normal(v: Value): Value {
    match v
    case TextBulk(data) => Bulk(data)
    case NullTextBulk => NullBulk
    case Array(elements) => Array(NormalAll(elements))
    case _ => v
  }

  function NormalAll(vs: seq<Value>): (ns: seq<Value>)
    ensures |ns| == |vs|
  {
    if vs == [] then [] else NormalAll(vs[..|vs| - 1]) + [Normal(vs[|vs| - 1])]
  }

  lemma {:induction false} NormalAllAt(vs: seq<Value>, i: nat)
    requires i < |vs|
    ensures NormalAll(vs)[i] == Normal(vs[i])
  {
    if i < |vs| - 1 { NormalAllAt(vs[..|vs| - 1], i); }
  }

  /** `AppendValues` */
  method AppendValues(dst: Bytes, values: seq<Value>) returns (r: Bytes)
    ensures r == dst + EncodeAll(values)
  {
    r := dst;
    for i := 0 to |values|
      invariant r == dst + EncodeAll(values[..i])
    {
      assert values[..i + 1][..i] == values[..i];
      r := AppendEncoded(r, values[i]);
    }
    assert values[..|values|] == values;
  }

  // ----- lines -----

  /** The position of the first line feed, or the length if there is none. */
  function LineFeed(buf: Bytes): (i: nat)
    ensures i <= |buf| && (i < |buf| ==> buf[i] == LF)
    ensures forall j | 0 <= j < i :: buf[j] != LF
  {
    if buf == [] then 0 else if buf[0] == LF then 0 else 1 + LineFeed(buf[1..])
  }

  /** `trimCRLF` on the line that ends with the line feed at `i`. */
  predicate Terminated(buf: Bytes, i: nat)
    requires i < |buf|
  {
    1 <= i && buf[i - 1] == CR
  }

  lemma LineFeedExtend(buf: Bytes, ext: Bytes)
    ensures LineFeed(buf) < |buf| ==> LineFeed(buf + ext) == LineFeed(buf)
    ensures LineFeed(buf) == |buf| ==> LineFeed(buf + ext) >= |buf|
  {
    var i, j := LineFeed(buf), LineFeed(buf + ext);
    if i < |buf| {
      assert (buf + ext)[i] == LF;
    }
    if j < |buf| {
      assert buf[j] == LF;
    }
  }

  /** A text without line feeds followed by CRLF is one line. */
  lemma LineOf(text: Bytes, rest: Bytes)
    requires forall i | 0 <= i < |text| :: text[i] != LF
    ensures LineFeed(text + CRLF + rest) == |text| + 1
    ensures Terminated(text + CRLF + rest, |text| + 1)
    ensures (text + CRLF + rest)[..|text|] == text
  {
    var buf := text + CRLF + rest;
    assert buf[|text|] == CR && buf[|text| + 1] == LF;
    assert forall i | 0 <= i < |text| :: buf[i] == text[i];
  }
}
