/**
 The RDB snapshot format (internal/rdb/snapshot.go and loader.go): how lengths,
 strings and entries are written and read.
 */
module RdbFormat {
  import opened Options
  import opened Order
  import opened Decimal

  const MAX_OBJECT: nat := 512 * 1024 * 1024

  datatype Reason =
    | Truncated | TooLong | BadString | BadHeader | BadExpiry | BadChecksum
    | UnsupportedDB | UnsupportedType | UnsupportedOpcode | NoRoom

  /** What a read gives: a value and the bytes behind it. */
  datatype Read<+T> = Got(value: T, rest: Bytes) | Failed(reason: Reason)

  /** A string key with its value and deadline, 0 or less for none. */
  datatype Item = Item(key: Bytes, value: Bytes, expiresAt: int64)

  /** Decompression of LZF strings, which the writer never produces. */
  type Lzf = (Bytes, nat) -> Option<Bytes>

  // ----- numbers -----

  function LittleEndian(n: nat, k: nat): (b: Bytes)
    ensures |b| == k
  {
    if k == 0 then [] else [n % 256] + LittleEndian(n / 256, k - 1)
  }

  function FromLittleEndian(b: Bytes): nat {
    if b == [] then 0 else b[0] + 256 * FromLittleEndian(b[1..])
  }

  function Radix(k: nat): nat {
    if k == 0 then 1 else 256 * Radix(k - 1)
  }

  lemma {:induction false} LittleEndianBound(b: Bytes)
    ensures FromLittleEndian(b) < Radix(|b|)
  {
    if b != [] {
      LittleEndianBound(b[1..]);
    }
  }

  lemma {:induction false} LittleEndianInverse(n: nat, k: nat)
    requires n < Radix(k)
    ensures FromLittleEndian(LittleEndian(n, k)) == n
  {
    if k > 0 {
      LittleEndianInverse(n / 256, k - 1);
      assert LittleEndian(n, k)[1..] == LittleEndian(n / 256, k - 1);
    }
  }

  /** The lowest four bytes of `n`, highest first. */
  function BigEndian4(n: nat): (b: Bytes)
    ensures |b| == 4
  {
    [n / 256 / 256 / 256 % 256, n / 256 / 256 % 256, n / 256 % 256, n % 256]
  }

  function FromBigEndian4(b: Bytes): nat
    requires |b| == 4
  {
    var b0: int, b1: int, b2: int, b3: int := b[0], b[1], b[2], b[3];
    ((b0 * 256 + b1) * 256 + b2) * 256 + b3
  }

  lemma {:induction false} BigEndianInverse(n: nat)
    ensures FromBigEndian4(BigEndian4(n)) == n % 0x1_0000_0000
  {
    var d0, n1 := n % 256, n / 256;
    var d1, n2 := n1 % 256, n1 / 256;
    var d2, n3 := n2 % 256, n2 / 256;
    var d3, top := n3 % 256, n3 / 256;
    assert n == top * 0x1_0000_0000 + (((d3 * 256 + d2) * 256 + d1) * 256 + d0);
    Remainder(top, ((d3 * 256 + d2) * 256 + d1) * 256 + d0);
  }

  lemma {:induction false} Remainder(top: nat, low: nat)
    requires low < 0x1_0000_0000
    ensures (top * 0x1_0000_0000 + low) % 0x1_0000_0000 == low
  {
  }

  // ----- lengths -----

  /** `appendLength` */
  function Length(n: nat): (b: Bytes)
    ensures b != []
  {
    if n < 64 then [n]
    else if n < 16384 then [64 + n / 256, n % 256]
    else [128] + BigEndian4(n)
  }

  /** `readLength`: the number, and whether it names a string encoding instead of a length. */
  function ReadLength(b: Bytes): (r: Read<(nat, bool)>)
    ensures r.Got? ==> |r.rest| < |b|
  {
    if b == [] then Failed(Truncated)
    else
      var first: int := b[0];
      var form, low := first / 64, first % 64;
      if form == 0 then Got((low, false), b[1..])
      else if form == 1 then
        if |b| < 2 then Failed(Truncated)
        else
          var second: int := b[1];
          Got((low * 256 + second, false), b[2..])
      else if form == 2 then
        if |b| < 5 then Failed(Truncated) else Got((FromBigEndian4(b[1..5]), false), b[5..])
      else Got((low, true), b[1..])
  }

  /** A length is read back, modulo 32 bits. */
  lemma LengthRoundTrip(n: nat, rest: Bytes)
    ensures ReadLength(Length(n) + rest) == Got((if n < 16384 then n else n % 0x1_0000_0000, false), rest)
  {
    hide BigEndian4, FromBigEndian4;
    var b := Length(n) + rest;
    if n < 64 {
      assert b[1..] == rest;
    } else if n < 16384 {
      assert b[2..] == rest;
    } else {
      BigEndianInverse(n);
      assert b[1..5] == BigEndian4(n) && b[5..] == rest;
    }
  }

  // ----- strings -----

  /** `appendString` */
  function Str(s: Bytes): Bytes {
    Length(|s|) + s
  }

  /** `readBytes` */
  function ReadBytes(b: Bytes, n: nat): (r: Read<Bytes>)
    ensures r.Got? ==> |r.value| == n && |r.rest| <= |b|
  {
    if n == 0 then Got([], b)
    else if n > MAX_OBJECT then Failed(TooLong)
    else if |b| < n then Failed(Truncated)
    else Got(b[..n], b[n..])
  }

  /** A two's-complement number of `k` bytes, as decimal text. */
  function SignedText(b: Bytes, k: nat): Bytes
    requires 1 <= k <= 4 && |b| == k
  {
    var n := FromLittleEndian(b);
    SmallFits(b, k);
    FormatInt(if 2 * n >= Radix(k) then n - Radix(k) else n)
  }

  lemma {:induction false} SmallFits(b: Bytes, k: nat)
    requires |b| == k
    ensures FromLittleEndian(b) < Radix(k)
    ensures k <= 4 ==> Radix(k) <= 0x1_0000_0000
    decreases k
  {
    if k > 0 {
      SmallFits(b[1..], k - 1);
      if k <= 4 {
        BoundSmall(k - 1);
      }
    }
  }

  lemma {:induction false} BoundSmall(k: nat)
    requires k <= 3
    ensures Radix(k) <= 0x100_0000
  {
    assert Radix(0) == 1 && Radix(1) == 256 && Radix(2) == 65536 && Radix(3) == 16777216;
  }

  function ReadSigned(b: Bytes, k: nat): (r: Read<Bytes>)
    requires 1 <= k <= 4
    ensures r.Got? ==> |r.rest| < |b|
  {
    if |b| < k then Failed(Truncated) else Got(SignedText(b[..k], k), b[k..])
  }

  /** The compressed form: two lengths and the payload. */
  function ReadCompressed(b: Bytes, lzf: Lzf): (r: Read<Bytes>)
    ensures r.Got? ==> |r.rest| < |b|
  {
    match ReadLength(b)
    case Failed(reason) => Failed(reason)
    case Got(packed, afterPacked) =>
      if packed.1 then Failed(BadString)
      else match ReadLength(afterPacked)
        case Failed(reason) => Failed(reason)
        case Got(full, afterFull) =>
          if full.1 then Failed(BadString)
          else if full.0 > MAX_OBJECT then Failed(TooLong)
          else match ReadBytes(afterFull, packed.0)
            case Failed(reason) => Failed(reason)
            case Got(payload, rest) =>
              match lzf(payload, full.0)
              case None => Failed(BadString)
              case Some(text) => Got(text, rest)
  }

  /** `readString` */
  function ReadString(b: Bytes, lzf: Lzf): (r: Read<Bytes>)
    ensures r.Got? ==> |r.rest| < |b|
  {
    match ReadLength(b)
    case Failed(reason) => Failed(reason)
    case Got(head, rest) =>
      if !head.1 then ReadBytes(rest, head.0)
      else if head.0 == 0 then ReadSigned(rest, 1)
      else if head.0 == 1 then ReadSigned(rest, 2)
      else if head.0 == 2 then ReadSigned(rest, 4)
      else if head.0 == 3 then ReadCompressed(rest, lzf)
      else Failed(BadString)
  }

  /** A string is read back exactly when it is at most 512 MiB long. */
  lemma StringRoundTrip(s: Bytes, rest: Bytes, lzf: Lzf)
    ensures ReadString(Str(s) + rest, lzf) == Got(s, rest) <==> |s| <= MAX_OBJECT
  {
    hide Length, ReadLength;
    LengthRoundTrip(|s|, s + rest);
    assert Str(s) + rest == Length(|s|) + (s + rest);
    var n := if |s| < 16384 then |s| else |s| % 0x1_0000_0000;
    assert ReadString(Str(s) + rest, lzf) == ReadBytes(s + rest, n);
    if |s| <= MAX_OBJECT {
      assert (s + rest)[..|s|] == s && (s + rest)[|s|..] == rest;
    }
  }
}
