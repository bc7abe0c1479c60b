/** The RDB format as a grammar, apart from the loader, and what the loader accepts by it (internal/rdb/loader.go). */
module RdbGrammar {
  import opened Options
  import opened Order
  import opened Decimal
  import opened RdbFormat
  import opened Rdb

  // ----- lengths -----

  /** A length in 6, 14 or 32 bits. */
  ghost predicate LengthWire(b: Bytes, n: nat) {
    || (|b| == 1 && b[0] < 64 && n == b[0])
    || (|b| == 2 && 64 <= b[0] < 128 && n == (b[0] as int - 64) * 256 + b[1])
    || (|b| == 5 && 128 <= b[0] < 192 && n == Big(b[1], b[2], b[3], b[4]))
  }

  function Big(b3: int, b2: int, b1: int, b0: int): int {
    b3 * 0x100_0000 + b2 * 0x1_0000 + b1 * 0x100 + b0
  }

  /** The byte that names an encoding instead. */
  ghost predicate CodeWire(b: Bytes, code: nat) {
    |b| == 1 && b[0] >= 192 && code == b[0] - 192
  }

  lemma LengthReads(w: Bytes, n: nat, rest: Bytes)
    ensures LengthWire(w, n) ==> ReadLength(w + rest) == Got((n, false), rest)
    ensures CodeWire(w, n) ==> ReadLength(w + rest) == Got((n, true), rest)
  {
    if |w| == 1 {
      Joined(w, rest, 1);
    } else if LengthWire(w, n) {
      Joined(w, rest, |w|);
      LongLengthReads(w, n, w + rest);
    }
  }

  lemma Joined(w: Bytes, rest: Bytes, i: nat)
    requires w != [] && i <= |w|
    ensures (w + rest)[|w|..] == rest && (w + rest)[0] == w[0]
    ensures (w + rest)[i..] == w[i..] + rest && (w + rest)[..|w|] == w
  {
  }

  lemma LongLengthReads(w: Bytes, n: nat, b: Bytes)
    requires |w| > 1 && LengthWire(w, n) && w <= b
    ensures ReadLength(b) == Got((n, false), b[|w|..])
  {
    assert b[0] == w[0];
    if |w| == 2 {
      assert b[1] == w[1];
    } else {
      assert b[1..5] == w[1..5];
    }
  }

  lemma LengthRead(b: Bytes)
    requires ReadLength(b).Got?
    ensures
      var Got(head, rest) := ReadLength(b);
      var k := |b| - |rest|;
      && 0 < k && b[k..] == rest
      && (if head.1 then CodeWire(b[..k], head.0) else LengthWire(b[..k], head.0))
  {
  }

  // ----- strings -----

  /** A number in two's complement, lowest byte first. */
  ghost predicate SignedWire(b: Bytes, v: int) {
    && |b| in {1, 2, 4} && 0 - Radix(|b|) <= 2 * v < Radix(|b|)
    && FromLittleEndian(b) == if v < 0 then v + Radix(|b|) else v
  }

  ghost predicate PlainWire(b: Bytes, s: Bytes) {
    |s| <= MAX_OBJECT && exists k | 0 <= k <= |b| :: LengthWire(b[..k], |s|) && b[k..] == s
  }

  /** A string that is the text of a small number. */
  ghost predicate NumberWire(b: Bytes, s: Bytes) {
    && b != [] && ((b[0] == 192 && |b| == 2) || (b[0] == 193 && |b| == 3) || (b[0] == 194 && |b| == 5))
    && exists v: int64 :: SignedWire(b[1..], v) && s == FormatInt(v)
  }

  /** A compressed string: the length of the payload, that of the string, and the payload. */
  ghost predicate PackedWire(b: Bytes, s: Bytes, lzf: Lzf) {
    b != [] && b[0] == 195 &&
    exists p, q, full: nat | 1 <= p <= q <= |b| ::
      && LengthWire(b[1..p], |b| - q) && LengthWire(b[p..q], full)
      && |b| - q <= MAX_OBJECT && full <= MAX_OBJECT && lzf(b[q..], full) == Some(s)
  }

  ghost predicate TextWire(b: Bytes, s: Bytes, lzf: Lzf) {
    PlainWire(b, s) || NumberWire(b, s) || PackedWire(b, s, lzf)
  }

  lemma PlainReads(w: Bytes, s: Bytes, rest: Bytes, lzf: Lzf)
    requires PlainWire(w, s)
    ensures ReadString(w + rest, lzf) == Got(s, rest)
  {
    hide ReadLength, LengthWire;
    var k :| 0 <= k <= |w| && LengthWire(w[..k], |s|) && w[k..] == s;
    LengthReads(w[..k], |s|, s + rest);
    assert w + rest == w[..k] + (s + rest);
    assert (s + rest)[..|s|] == s && (s + rest)[|s|..] == rest;
  }

  lemma SignedReads(b: Bytes, v: int64)
    requires SignedWire(b, v)
    ensures SignedText(b, |b|) == FormatInt(v)
  {
    LittleEndianBound(b);
  }

  lemma NumberReads(w: Bytes, s: Bytes, rest: Bytes, lzf: Lzf)
    requires NumberWire(w, s)
    ensures ReadString(w + rest, lzf) == Got(s, rest)
  {
    hide ReadLength, SignedText, SignedWire, FormatInt;
    var v: int64 :| SignedWire(w[1..], v) && s == FormatInt(v);
    SignedReads(w[1..], v);
    var code := w[0] - 192;
    assert CodeWire(w[..1], code);
    LengthReads(w[..1], code, w[1..] + rest);
    assert w + rest == w[..1] + (w[1..] + rest);
    var after := w[1..] + rest;
    assert after[..|w| - 1] == w[1..] && after[|w| - 1..] == rest;
  }

  lemma PackedReads(w: Bytes, s: Bytes, rest: Bytes, lzf: Lzf)
    requires PackedWire(w, s, lzf)
    ensures ReadString(w + rest, lzf) == Got(s, rest)
  {
    hide ReadLength, LengthWire;
    var p, q, full: nat :| && 1 <= p <= q <= |w| && LengthWire(w[1..p], |w| - q) && LengthWire(w[p..q], full)
                           && |w| - q <= MAX_OBJECT && full <= MAX_OBJECT && lzf(w[q..], full) == Some(s);
    assert CodeWire(w[..1], 3);
    LengthReads(w[..1], 3, w[1..] + rest);
    assert w + rest == w[..1] + (w[1..] + rest);
    LengthReads(w[1..p], |w| - q, w[p..] + rest);
    assert w[1..] + rest == w[1..p] + (w[p..] + rest);
    LengthReads(w[p..q], full, w[q..] + rest);
    assert w[p..] + rest == w[p..q] + (w[q..] + rest);
    var after := w[q..] + rest;
    assert after[..|w| - q] == w[q..] && after[|w| - q..] == rest;
  }

  lemma TextReads(w: Bytes, s: Bytes, rest: Bytes, lzf: Lzf)
    requires TextWire(w, s, lzf)
    ensures ReadString(w + rest, lzf) == Got(s, rest)
  {
    hide ReadString, PlainWire, NumberWire, PackedWire;
    if PlainWire(w, s) {
      PlainReads(w, s, rest, lzf);
    } else if NumberWire(w, s) {
      NumberReads(w, s, rest, lzf);
    } else {
      PackedReads(w, s, rest, lzf);
    }
  }

  lemma SignedIsWire(b: Bytes)
    requires |b| in {1, 2, 4}
    ensures exists v: int64 :: SignedWire(b, v) && SignedText(b, |b|) == FormatInt(v)
  {
    var n, k := FromLittleEndian(b), |b|;
    SmallFits(b, k);
    var v: int64 := if 2 * n >= Radix(k) then n - Radix(k) else n;
    assert SignedWire(b, v);
  }

  lemma Behind(b: Bytes, i: nat, n: nat)
    requires i + n <= |b|
    ensures b[..i + n][i..] == b[i..][..n] && b[i + n..] == b[i..][n..]
  {
  }

  /** What is read as a string is one on the wire. */
  lemma TextRead(b: Bytes, lzf: Lzf)
    requires ReadString(b, lzf).Got?
    ensures
      var Got(s, rest) := ReadString(b, lzf);
      var n := |b| - |rest|;
      0 < n && b[n..] == rest && TextWire(b[..n], s, lzf)
  {
    hide ReadLength, LengthWire, SignedText, ReadCompressed, PackedWire, SignedWire;
    LengthRead(b);
    var Got(head, after) := ReadLength(b);
    var k := |b| - |after|;
    if !head.1 {
      var n := k + head.0;
      var w := b[..n];
      assert w[..k] == b[..k] && w[k..] == after[..head.0];
      assert b[n..] == after[head.0..];
    } else if head.0 <= 2 {
      var size := if head.0 == 0 then 1 else if head.0 == 1 then 2 else 4;
      SignedIsWire(after[..size]);
      Behind(b, 1, size);
    } else {
      PackedRead(b, lzf);
    }
  }

  lemma LengthReadAt(b: Bytes, p: nat)
    requires p <= |b| && ReadLength(b[p..]).Got?
    ensures
      var Got(head, rest) := ReadLength(b[p..]);
      var q := |b| - |rest|;
      && p < q <= |b| && rest == b[q..]
      && (if head.1 then CodeWire(b[p..q], head.0) else LengthWire(b[p..q], head.0))
  {
    hide ReadLength, LengthWire, CodeWire;
    LengthRead(b[p..]);
    Spans(b, p, |b| - |ReadLength(b[p..]).rest|);
  }

  lemma PackedRead(b: Bytes, lzf: Lzf)
    requires b != [] && b[0] == 195 && ReadCompressed(b[1..], lzf).Got?
    ensures
      var Got(s, rest) := ReadCompressed(b[1..], lzf);
      var n := |b| - |rest|;
      0 < n && b[n..] == rest && PackedWire(b[..n], s, lzf)
  {
    hide ReadLength, LengthWire, CodeWire, PackedWire, ReadCompressed;
    CompressedParts(b[1..], lzf);
    LengthReadAt(b, 1);
    var Got(packed, afterPacked) := ReadLength(b[1..]);
    var p := |b| - |afterPacked|;
    LengthReadAt(b, p);
    var Got(full, afterFull) := ReadLength(b[p..]);
    var q := |b| - |afterFull|;
    Spans(b, q, q + packed.0);
    PackedParts(b, p, q, q + packed.0, full.0, ReadCompressed(b[1..], lzf).value, lzf);
  }

  /** The parts of a compressed string, as they are read. */
  lemma CompressedParts(after: Bytes, lzf: Lzf)
    requires ReadCompressed(after, lzf).Got?
    ensures ReadLength(after).Got? && !ReadLength(after).value.1
    ensures
      var Got(packed, afterPacked) := ReadLength(after);
      ReadLength(afterPacked).Got? && !ReadLength(afterPacked).value.1 &&
      var Got(full, afterFull) := ReadLength(afterPacked);
      && packed.0 <= |afterFull| && packed.0 <= MAX_OBJECT && full.0 <= MAX_OBJECT
      && lzf(afterFull[..packed.0], full.0) == Some(ReadCompressed(after, lzf).value)
      && ReadCompressed(after, lzf).rest == afterFull[packed.0..]
  {
    hide ReadLength;
    var afterFull := ReadLength(ReadLength(after).rest).rest;
    assert afterFull[..0] == [] && afterFull[0..] == afterFull;
  }

  lemma Spans(b: Bytes, p: nat, q: nat)
    requires p <= q <= |b|
    ensures b[p..][..q - p] == b[p..q] && b[p..][q - p..] == b[q..]
  {
  }

  lemma PackedParts(b: Bytes, p: nat, q: nat, n: nat, full: nat, s: Bytes, lzf: Lzf)
    requires b != [] && b[0] == 195 && 1 <= p <= q <= n <= |b| && n - q <= MAX_OBJECT && full <= MAX_OBJECT
    requires LengthWire(b[1..p], n - q) && LengthWire(b[p..q], full) && lzf(b[q..n], full) == Some(s)
    ensures PackedWire(b[..n], s, lzf)
  {
    hide LengthWire;
    var w := b[..n];
    assert w[1..p] == b[1..p] && w[p..q] == b[p..q] && w[q..] == b[q..n];
  }

  /** The loader reads a string exactly where the grammar has one. */
  lemma TextExactly(b: Bytes, s: Bytes, n: nat, lzf: Lzf)
    requires n <= |b|
    ensures ReadString(b, lzf) == Got(s, b[n..]) <==> TextWire(b[..n], s, lzf)
  {
    hide ReadString, TextWire;
    if ReadString(b, lzf) == Got(s, b[n..]) {
      TextRead(b, lzf);
    }
    if TextWire(b[..n], s, lzf) {
      TextReads(b[..n], s, b[n..], lzf);
      assert b[..n] + b[n..] == b;
    }
  }

  // ----- entries -----

  /** The deadline in front of an entry: none, in seconds or in milliseconds. */
  ghost predicate DeadlineWire(b: Bytes, t: int) {
    || (b == [] && t == 0)
    || (|b| == 5 && b[0] == EXPIRE_SECONDS && t == FromLittleEndian(b[1..]) * 1000)
    || (|b| == 9 && b[0] == EXPIRE_MILLIS && t == FromLittleEndian(b[1..]) && t <= MAX_MILLIS)
  }

  /** The type of a string, a key and a value. */
  ghost predicate PairWire(b: Bytes, key: Bytes, value: Bytes, lzf: Lzf) {
    b != [] && b[0] == 0 &&
    exists k | 1 <= k <= |b| :: TextWire(b[1..k], key, lzf) && TextWire(b[k..], value, lzf)
  }

  ghost predicate EntryWire(b: Bytes, e: Item, lzf: Lzf) {
    exists d | 0 <= d <= |b| :: DeadlineWire(b[..d], e.expiresAt) && PairWire(b[d..], e.key, e.value, lzf)
  }

  /** A length, or an encoding in its place, of which the loader takes no notice here. */
  ghost predicate AnyLength(b: Bytes, n: nat) {
    LengthWire(b, n) || CodeWire(b, n)
  }

  /** An auxiliary field, the sizes of the tables, or the selection of database 0. */
  ghost predicate SkipWire(b: Bytes, lzf: Lzf) {
    b != [] &&
    (|| (b[0] == AUX && exists k, s, t | 1 <= k <= |b| :: TextWire(b[1..k], s, lzf) && TextWire(b[k..], t, lzf))
     || (b[0] == RESIZE_DB && exists k, m: nat, n: nat | 1 <= k <= |b| :: AnyLength(b[1..k], m) && AnyLength(b[k..], n))
     || (b[0] == SELECT_DB && AnyLength(b[1..], 0)))
  }

  lemma PairReads(w: Bytes, key: Bytes, value: Bytes, t: int64, rest: Bytes, lzf: Lzf)
    requires PairWire(w, key, value, lzf)
    ensures ReadEntry(0, t, w[1..] + rest, lzf) == Loads(Item(key, value, t), rest)
  {
    hide ReadString, TextWire;
    var k :| 1 <= k <= |w| && TextWire(w[1..k], key, lzf) && TextWire(w[k..], value, lzf);
    TextReads(w[1..k], key, w[k..] + rest, lzf);
    assert w[1..] + rest == w[1..k] + (w[k..] + rest);
    TextReads(w[k..], value, rest, lzf);
  }

  lemma EntryReads(w: Bytes, e: Item, rest: Bytes, lzf: Lzf)
    requires EntryWire(w, e, lzf)
    ensures NextStep(w + rest, lzf) == Loads(e, rest)
  {
    hide ReadString, TextWire, FromLittleEndian, ReadEntry, PairWire, TwoStrings, TwoLengths, ReadLength;
    var d :| 0 <= d <= |w| && DeadlineWire(w[..d], e.expiresAt) && PairWire(w[d..], e.key, e.value, lzf);
    var pair, b := w[d..], w + rest;
    PairHead(pair, e.key, e.value, lzf);
    PairReads(pair, e.key, e.value, e.expiresAt, rest, lzf);
    Joined(pair, rest, 1);
    if d == 0 {
      assert pair == w;
    } else {
      Joined(w, rest, d);
      Behind(b, 1, d - 1);
      assert b[..d] == w[..d];
    }
  }

  lemma PairHead(b: Bytes, key: Bytes, value: Bytes, lzf: Lzf)
    requires PairWire(b, key, value, lzf)
    ensures b != [] && b[0] == 0
  {
  }

  lemma SkipReads(w: Bytes, rest: Bytes, lzf: Lzf)
    requires SkipWire(w, lzf)
    ensures NextStep(w + rest, lzf) == Skip(rest)
  {
    hide ReadString, ReadLength, TextWire, LengthWire, CodeWire;
    var r := (w + rest)[1..];
    assert r == w[1..] + rest;
    if w[0] == AUX {
      var k, s, t :| 1 <= k <= |w| && TextWire(w[1..k], s, lzf) && TextWire(w[k..], t, lzf);
      TextReads(w[1..k], s, w[k..] + rest, lzf);
      assert r == w[1..k] + (w[k..] + rest);
      TextReads(w[k..], t, rest, lzf);
    } else if w[0] == RESIZE_DB {
      var k, m: nat, n: nat :| 1 <= k <= |w| && AnyLength(w[1..k], m) && AnyLength(w[k..], n);
      LengthReads(w[1..k], m, w[k..] + rest);
      assert r == w[1..k] + (w[k..] + rest);
      LengthReads(w[k..], n, rest);
    } else {
      LengthReads(w[1..], 0, rest);
    }
  }

  lemma PairRead(b: Bytes, t: int64, lzf: Lzf)
    requires b != [] && b[0] == 0 && ReadEntry(0, t, b[1..], lzf).Loads?
    ensures
      var Loads(e, rest) := ReadEntry(0, t, b[1..], lzf);
      var n := |b| - |rest|;
      0 < n && b[n..] == rest && e.expiresAt == t && PairWire(b[..n], e.key, e.value, lzf)
  {
    hide ReadString, TextWire;
    TextRead(b[1..], lzf);
    var Got(key, afterKey) := ReadString(b[1..], lzf);
    TextRead(afterKey, lzf);
    var Got(value, rest) := ReadString(afterKey, lzf);
    var k, n := |b| - |afterKey|, |b| - |rest|;
    assert afterKey == b[k..] && rest == afterKey[n - k..] == b[n..];
    var w := b[..n];
    assert w[1..k] == b[1..][..k - 1] && w[k..] == afterKey[..n - k];
  }

  /** What one turn of the loop takes is a record on the wire. */
  ghost predicate Record(b: Bytes, items: seq<Item>, lzf: Lzf) {
    b != [] &&
    (|| (items == [] && SkipWire(b, lzf))
     || (|items| == 1 && EntryWire(b, items[0], lzf)))
  }

  /** Two strings, one after the other. */
  lemma StringsRead(b: Bytes, lzf: Lzf)
    requires b != [] && TwoStrings(b[1..], lzf).Skip?
    ensures
      var rest := TwoStrings(b[1..], lzf).rest;
      var n := |b| - |rest|;
      && 0 < n && b[n..] == rest
      && exists k, s, t | 1 <= k <= n :: TextWire(b[1..k], s, lzf) && TextWire(b[k..n], t, lzf)
  {
    hide ReadString, TextWire;
    TextRead(b[1..], lzf);
    var Got(s, r1) := ReadString(b[1..], lzf);
    TextRead(r1, lzf);
    var k, n := |b| - |r1|, |b| - |ReadString(r1, lzf).rest|;
    Spans(b, 1, k);
    Spans(b, k, n);
  }

  lemma LengthsRead(b: Bytes)
    requires b != [] && TwoLengths(b[1..]).Skip?
    ensures
      var rest := TwoLengths(b[1..]).rest;
      var n := |b| - |rest|;
      && 0 < n && b[n..] == rest
      && exists k, i: nat, j: nat | 1 <= k <= n :: AnyLength(b[1..k], i) && AnyLength(b[k..n], j)
  {
    hide ReadLength, LengthWire, CodeWire;
    LengthRead(b[1..]);
    var Got(i, r1) := ReadLength(b[1..]);
    LengthRead(r1);
    var Got(j, r2) := ReadLength(r1);
    var k, n := |b| - |r1|, |b| - |r2|;
    Spans(b, 1, k);
    Spans(b, k, n);
    assert AnyLength(b[1..k], i.0) && AnyLength(b[k..n], j.0);
  }

  lemma SkipRead(b: Bytes, lzf: Lzf)
    requires NextStep(b, lzf).Skip?
    ensures
      var rest := NextStep(b, lzf).rest;
      var n := |b| - |rest|;
      0 < n && b[n..] == rest && Record(b[..n], [], lzf)
  {
    hide ReadString, ReadLength, TextWire, AnyLength, ReadTimed, ReadEntry, TwoStrings, TwoLengths;
    var rest := NextStep(b, lzf).rest;
    var n := |b| - |rest|;
    var w := b[..n];
    if b[0] == AUX {
      StringsRead(b, lzf);
      var k, s, t :| 1 <= k <= n && TextWire(b[1..k], s, lzf) && TextWire(b[k..n], t, lzf);
      assert w[1..k] == b[1..k] && w[k..] == b[k..n];
    } else if b[0] == RESIZE_DB {
      LengthsRead(b);
      var k, i: nat, j: nat :| 1 <= k <= n && AnyLength(b[1..k], i) && AnyLength(b[k..n], j);
      assert w[1..k] == b[1..k] && w[k..] == b[k..n];
    } else {
      SelectRead(b);
      Spans(b, 1, n);
      assert w[1..] == b[1..n];
    }
  }

  lemma SelectRead(b: Bytes)
    requires b != [] && ReadLength(b[1..]).Got?
    ensures
      var Got(index, rest) := ReadLength(b[1..]);
      var n := |b| - |rest|;
      1 < n && b[n..] == rest && AnyLength(b[1..n], index.0)
  {
    hide ReadLength, LengthWire, CodeWire;
    LengthRead(b[1..]);
    Spans(b, 1, |b| - |ReadLength(b[1..]).rest|);
  }

  lemma TimedRead(b: Bytes, lzf: Lzf)
    requires b != [] && b[0] in {EXPIRE_SECONDS, EXPIRE_MILLIS}
    requires ReadTimed(b[0] == EXPIRE_SECONDS, b[1..], lzf).Loads?
    ensures
      var Loads(e, rest) := ReadTimed(b[0] == EXPIRE_SECONDS, b[1..], lzf);
      var n := |b| - |rest|;
      0 < n && b[n..] == rest && EntryWire(b[..n], e, lzf)
  {
    hide ReadEntry, PairWire, FromLittleEndian, Radix;
    var r, size := b[1..], if b[0] == EXPIRE_SECONDS then 4 else 8;
    var pair := r[size..];
    KindRead(pair, r, size, b[0] == EXPIRE_SECONDS, lzf);
    var Loads(e, rest) := ReadTimed(b[0] == EXPIRE_SECONDS, r, lzf);
    PairRead(pair, e.expiresAt, lzf);
    var n, d := |b| - |rest|, 1 + size;
    var w := b[..n];
    assert pair == b[d..] && w[d..] == pair[..n - d] && b[n..] == pair[n - d..];
    assert w[..d] == b[..d] && b[..d][1..] == r[..size];
  }

  /** Behind a deadline only a string is loaded, with that deadline. */
  lemma KindRead(pair: Bytes, r: Bytes, size: nat, seconds: bool, lzf: Lzf)
    requires size == (if seconds then 4 else 8) <= |r| && pair == r[size..] && ReadTimed(seconds, r, lzf).Loads?
    ensures
      var e := ReadTimed(seconds, r, lzf).item;
      && pair != [] && pair[0] == 0 && ReadEntry(0, e.expiresAt, pair[1..], lzf) == ReadTimed(seconds, r, lzf)
      && e.expiresAt == FromLittleEndian(r[..size]) * (if seconds then 1000 else 1) && e.expiresAt <= MAX_MILLIS
  {
    hide ReadString, FromLittleEndian;
  }

  lemma EntryRead(b: Bytes, lzf: Lzf)
    requires NextStep(b, lzf).Loads?
    ensures
      var Loads(e, rest) := NextStep(b, lzf);
      var n := |b| - |rest|;
      0 < n && b[n..] == rest && Record(b[..n], [e], lzf)
  {
    hide ReadString, ReadLength, EntryWire, PairWire, ReadTimed, ReadEntry;
    if b[0] in {EXPIRE_SECONDS, EXPIRE_MILLIS} {
      TimedRead(b, lzf);
    } else {
      UntimedRead(b, lzf);
    }
  }

  lemma UntimedRead(b: Bytes, lzf: Lzf)
    requires b != [] && ReadEntry(b[0], 0, b[1..], lzf).Loads?
    ensures
      var Loads(e, rest) := ReadEntry(b[0], 0, b[1..], lzf);
      var n := |b| - |rest|;
      0 < n && b[n..] == rest && EntryWire(b[..n], e, lzf)
  {
    hide ReadString, PairWire;
    PairRead(b, 0, lzf);
    var rest := ReadEntry(b[0], 0, b[1..], lzf).rest;
    var w := b[..|b| - |rest|];
    assert w[..0] == [] && w[0..] == w;
  }

  // ----- the payload -----

  /** Records one after the other, with their entries. */
  ghost predicate Records(b: Bytes, items: seq<Item>, lzf: Lzf)
    decreases |b|
  {
    if b == [] then items == []
    else
      exists k, n | 0 < k <= |b| && 0 <= n <= |items| ::
        Record(b[..k], items[..n], lzf) && Records(b[k..], items[n..], lzf)
  }

  /** The end, with or without a checksum, which is not looked at. */
  ghost predicate TailWire(b: Bytes) {
    |b| in {1, 9} && b[0] == END
  }

  ghost predicate PayloadWire(b: Bytes, items: seq<Item>, lzf: Lzf) {
    && |b| >= 9 && b[..5] == HEADER[..5] && (exists version :: Denotes(b[5..9], version) && 1 <= version <= MAX_VERSION)
    && exists k | 9 <= k <= |b| :: Records(b[9..k], items, lzf) && TailWire(b[k..])
  }

  lemma RecordRead(w: Bytes, items: seq<Item>, rest: Bytes, lzf: Lzf)
    requires Record(w, items, lzf)
    ensures
      var later := ReadEntries(rest, lzf);
      ReadEntries(w + rest, lzf) == Contents(items + later.items, later.error)
  {
    hide NextStep, SkipWire, EntryWire;
    if items == [] {
      SkipReads(w, rest, lzf);
      assert items + ReadEntries(rest, lzf).items == ReadEntries(rest, lzf).items;
    } else {
      EntryReads(w, items[0], rest, lzf);
      assert items == [items[0]];
    }
  }

  lemma {:induction false} RecordsRead(w: Bytes, items: seq<Item>, rest: Bytes, lzf: Lzf)
    requires Records(w, items, lzf)
    ensures
      var later := ReadEntries(rest, lzf);
      ReadEntries(w + rest, lzf) == Contents(items + later.items, later.error)
    decreases |w|
  {
    hide NextStep, Record, ReadEntries;
    if w == [] {
      assert w + rest == rest;
      assert items + ReadEntries(rest, lzf).items == ReadEntries(rest, lzf).items;
    } else {
      var k, n :| && 0 < k <= |w| && 0 <= n <= |items|
                  && Record(w[..k], items[..n], lzf) && Records(w[k..], items[n..], lzf);
      RecordsRead(w[k..], items[n..], rest, lzf);
      assert w + rest == w[..k] + (w[k..] + rest);
      RecordRead(w[..k], items[..n], w[k..] + rest, lzf);
      var later := ReadEntries(rest, lzf);
      assert items[..n] + (items[n..] + later.items) == items + later.items;
    }
  }

  lemma {:induction false} EntriesAreWire(b: Bytes, lzf: Lzf) returns (k: nat)
    requires ReadEntries(b, lzf).error == None
    ensures k <= |b| && Records(b[..k], ReadEntries(b, lzf).items, lzf) && TailWire(b[k..])
    decreases |b|
  {
    hide Record, NextStep, TailWire, Records;
    match NextStep(b, lzf)
    case Done =>
      k := 0;
      DoneIsTail(b, lzf);
      assert b[0..] == b && b[..0] == [];
      NoRecords(lzf);
    case Skip(rest) =>
      SkipRead(b, lzf);
      k := EntriesAreWire(rest, lzf);
      k := RecordsPut(b, |b| - |rest|, k, [], ReadEntries(rest, lzf).items, lzf);
      assert [] + ReadEntries(rest, lzf).items == ReadEntries(rest, lzf).items;
    case Loads(e, rest) =>
      EntryRead(b, lzf);
      k := EntriesAreWire(rest, lzf);
      k := RecordsPut(b, |b| - |rest|, k, [e], ReadEntries(rest, lzf).items, lzf);
    case Halt(_) =>
  }

  lemma NoRecords(lzf: Lzf)
    ensures Records([], [], lzf)
  {
  }

  lemma DoneIsTail(b: Bytes, lzf: Lzf)
    requires NextStep(b, lzf).Done?
    ensures TailWire(b)
  {
    hide ReadString, ReadLength, ReadTimed, ReadEntry;
  }

  /** One record more in front. */
  lemma RecordsPut(b: Bytes, n: nat, j: nat, first: seq<Item>, items: seq<Item>, lzf: Lzf) returns (k: nat)
    requires 0 < n <= |b| && j <= |b[n..]| && Record(b[..n], first, lzf)
    requires Records(b[n..][..j], items, lzf) && TailWire(b[n..][j..])
    ensures k <= |b| && Records(b[..k], first + items, lzf) && TailWire(b[k..])
  {
    hide Record;
    k := n + j;
    var w := b[..k];
    assert w[..n] == b[..n] && w[n..] == b[n..][..j] && b[k..] == b[n..][j..];
    assert (first + items)[..|first|] == first && (first + items)[|first|..] == items;
  }

  lemma TailRead(b: Bytes, lzf: Lzf)
    requires TailWire(b)
    ensures ReadEntries(b, lzf) == Contents([], None)
  {
  }

  lemma HeaderExactly(header: Bytes)
    requires |header| == 9
    ensures HeaderOk(header) <==>
              && header[..5] == HEADER[..5]
              && exists version :: Denotes(header[5..], version) && 1 <= version <= MAX_VERSION
  {
    hide ParseInt, Denotes;
    forall v: int64 {
      ParseIntMeaning(header[5..], v);
    }
    if HeaderOk(header) {
      assert Denotes(header[5..], ParseInt(header[5..]).value);
    }
  }

  /** The loader accepts a payload exactly if the grammar does, and with the same entries in the same order. */
  lemma PayloadExactly(b: Bytes, items: seq<Item>, lzf: Lzf)
    ensures ReadPayload(b, lzf) == Contents(items, None) <==> PayloadWire(b, items, lzf)
  {
    hide ReadEntries, Records, TailWire, HeaderOk, Denotes;
    if |b| >= 9 {
      HeaderExactly(b[..9]);
      assert b[..9][..5] == b[..5] && b[..9][5..] == b[5..9];
      var body := b[9..];
      if ReadPayload(b, lzf) == Contents(items, None) {
        var k := EntriesAreWire(body, lzf);
        assert body[..k] == b[9..9 + k] && body[k..] == b[9 + k..];
      }
      if PayloadWire(b, items, lzf) {
        var k :| 9 <= k <= |b| && Records(b[9..k], items, lzf) && TailWire(b[k..]);
        RecordsRead(b[9..k], items, b[k..], lzf);
        TailRead(b[k..], lzf);
        assert body == b[9..k] + b[k..];
        assert items + [] == items;
      }
    }
  }
}
