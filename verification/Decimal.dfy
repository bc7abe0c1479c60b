/**
 Decimal integers on the wire: printing (`strconv.AppendInt`) and the digit loop of
 `parseIntBytes` (internal/protocol/parser.go).
 */
module Decimal {
  import opened Order

  const MAX_ABS: int := 0x8000_0000_0000_0000
  const MAX_INT: int := 0x7fff_ffff_ffff_ffff

  type int64 = x: int | -0x8000_0000_0000_0000 <= x < 0x8000_0000_0000_0000

  datatype ParseError = Syntax | Range
  datatype Parsed = Ok(value: int64) | Err(error: ParseError)

  predicate IsDigit(b: byte) { 48 <= b <= 57 }

  ghost predicate AllDigits(raw: Bytes) { forall i | 0 <= i < |raw| :: IsDigit(raw[i]) }

  /** The number a string of digits denotes. */
  ghost function Magnitude(raw: Bytes): nat
    requires AllDigits(raw)
  {
    if raw == [] then 0 else Magnitude(raw[..|raw| - 1]) * 10 + (raw[|raw| - 1] - 48)
  }

  lemma {:induction false} MagnitudeMonotone(raw: Bytes, n: nat)
    requires AllDigits(raw) && n <= |raw|
    ensures Magnitude(raw[..n]) <= Magnitude(raw)
    decreases |raw| - n
  {
    if n < |raw| {
      var prefix := raw[..|raw| - 1];
      MagnitudeMonotone(prefix, n);
      assert prefix[..n] == raw[..n];
    } else {
      assert raw[..n] == raw;
    }
  }

  const MINUS: byte := 45
  const PLUS: byte := 43

  predicate Signed(raw: Bytes) { raw != [] && (raw[0] == MINUS || raw[0] == PLUS) }

  function Digits(raw: Bytes): Bytes { if Signed(raw) then raw[1..] else raw }

  predicate Negative(raw: Bytes) { raw != [] && raw[0] == MINUS }

  /** The largest magnitude that fits: one more below zero than above. */
  function Limit(negative: bool): int { if negative then MAX_ABS else MAX_ABS - 1 }

  /** What a numeral denotes, if it denotes a 64-bit integer. */
  ghost predicate Denotes(raw: Bytes, v: int) {
    && Digits(raw) != [] && AllDigits(Digits(raw))
    && Magnitude(Digits(raw)) <= Limit(Negative(raw))
    && v == Magnitude(Digits(raw)) * (if Negative(raw) then -1 else 1)
  }

  datatype Scanned = Value(value: nat) | Stop(error: ParseError)

  /** The digit loop: the first character that is no digit, or that would overflow, ends it. */
  function Scan(digits: Bytes, value: nat, limit: nat): Scanned {
    if digits == [] then Value(value)
    else if !IsDigit(digits[0]) then Stop(Syntax)
    else
      var parsed: nat := digits[0] - 48;
      if value > limit / 10 || (value == limit / 10 && parsed > limit % 10) then Stop(Range)
      else Scan(digits[1..], value * 10 + parsed, limit)
  }

  function ParseInt(raw: Bytes): (r: Parsed) {
    if Digits(raw) == [] then Err(Syntax)
    else
      match Scan(Digits(raw), 0, Limit(Negative(raw)))
      case Stop(e) => Err(e)
      case Value(m) =>
        ScanBound(Digits(raw), 0, Limit(Negative(raw)));
        Ok(if Negative(raw) then 0 - m else m)
  }

  lemma {:induction false} ScanBound(digits: Bytes, value: nat, limit: nat)
    requires value <= limit
    ensures Scan(digits, value, limit).Value? ==> Scan(digits, value, limit).value <= limit
  {
    if digits != [] && IsDigit(digits[0]) {
      var parsed: nat := digits[0] - 48;
      if value < limit / 10 || (value == limit / 10 && parsed <= limit % 10) {
        ScanBound(digits[1..], value * 10 + parsed, limit);
      }
    }
  }

  /** The loop computes the magnitude, and stops exactly when there is none within the limit. */
  lemma {:induction false} ScanMeaning(raw: Bytes, n: nat, limit: nat)
    requires n <= |raw| && AllDigits(raw[..n]) && Magnitude(raw[..n]) <= limit
    ensures var r := Scan(raw[n..], Magnitude(raw[..n]), limit);
            r.Value? <==> AllDigits(raw) && Magnitude(raw) <= limit
    ensures var r := Scan(raw[n..], Magnitude(raw[..n]), limit);
            r.Value? ==> r.value == Magnitude(raw)
    decreases |raw| - n
  {
    if n == |raw| {
      assert raw[..n] == raw;
    } else {
      assert raw[n..][0] == raw[n];
      if IsDigit(raw[n]) {
        var prefix := raw[..n + 1];
        assert prefix[..n] == raw[..n] && AllDigits(prefix);
        assert raw[n..][1..] == raw[n + 1..];
        if Magnitude(prefix) <= limit {
          ScanMeaning(raw, n + 1, limit);
        } else if AllDigits(raw) {
          MagnitudeMonotone(raw, n + 1);
        }
      }
    }
  }

  /** `parseIntBytes` accepts exactly the numerals of 64-bit integers, with their value. */
  lemma ParseIntMeaning(raw: Bytes, v: int64)
    ensures Denotes(raw, v) <==> ParseInt(raw) == Ok(v)
  {
    var digits := Digits(raw);
    assert digits[..0] == [] && digits[0..] == digits;
    ScanMeaning(digits, 0, Limit(Negative(raw)));
  }

  /** `parseIntBytes` */
  method ParseIntBytes(raw: Bytes) returns (r: Parsed)
    ensures r == ParseInt(raw)
  {
    if |raw| == 0 { return Err(Syntax); }
    var negative, digits := false, raw;
    if raw[0] == MINUS || raw[0] == PLUS {
      negative := raw[0] == MINUS;
      digits := raw[1..];
      if |digits| == 0 { return Err(Syntax); }
    }
    var limit: nat := if negative then MAX_ABS else MAX_ABS - 1;
    var cutoff, cutlim := limit / 10, limit % 10;
    var value: nat := 0;
    for i := 0 to |digits|
      invariant value <= limit
      invariant Scan(digits, 0, limit) == Scan(digits[i..], value, limit)
    {
      var digit := digits[i];
      assert digits[i..][1..] == digits[i + 1..];
      if digit < 48 || digit > 57 { return Err(Syntax); }
      var parsed: nat := digit - 48;
      if value > cutoff || (value == cutoff && parsed > cutlim) { return Err(Range); }
      value := value * 10 + parsed;
    }
    return Ok(if negative then 0 - value else value);
  }

  // ----- printing -----

  function FormatNat(n: nat): (s: Bytes)
    ensures s != []
  {
    if n < 10 then [48 + n] else FormatNat(n / 10) + [48 + n % 10]
  }

  /** `strconv.AppendInt` in base 10. */
  function FormatInt(v: int): (s: Bytes)
    ensures s != []
  {
    if v < 0 then [MINUS] + FormatNat(-v) else FormatNat(v)
  }

  lemma {:induction false} FormatNatDenotes(n: nat)
    ensures AllDigits(FormatNat(n)) && Magnitude(FormatNat(n)) == n
  {
    if n < 10 {
      assert FormatNat(n)[..0] == [];
    } else {
      FormatNatDenotes(n / 10);
      var s := FormatNat(n);
      assert s[..|s| - 1] == FormatNat(n / 10);
    }
  }

  /** Printing then parsing is the identity on 64-bit integers. */
  lemma ParseFormat(v: int64)
    ensures ParseInt(FormatInt(v)) == Ok(v)
  {
    var w: int := v;
    var m: nat := if w < 0 then 0 - w else w;
    FormatNatDenotes(m);
    assert IsDigit(FormatNat(m)[0]);
    assert Digits(FormatInt(v)) == FormatNat(m);
    ParseIntMeaning(FormatInt(v), v);
  }

  /** The print of a number is its shortest numeral: no plus, no leading zero. */
  lemma FormatCanonical(v: int64)
    ensures FormatInt(v) != [] && (FormatInt(v)[0] == MINUS <==> v < 0)
    ensures AllDigits(if v < 0 then FormatInt(v)[1..] else FormatInt(v))
    ensures v > 0 ==> FormatInt(v)[0] != 48
    ensures v < 0 ==> |FormatInt(v)| > 1 && FormatInt(v)[1] != 48
    ensures v == 0 ==> FormatInt(v) == [48]
  {
    var w: int := v;
    var m := if w < 0 then 0 - w else w;
    FormatNatDenotes(m);
    FormatNatLeads(m);
    assert w < 0 ==> FormatInt(v)[1..] == FormatNat(m);
  }

  lemma {:induction false} FormatNatLeads(n: nat)
    ensures FormatNat(n) != [] && (n > 0 ==> FormatNat(n)[0] != 48)
  {
    if n >= 10 {
      FormatNatLeads(n / 10);
    }
  }

  /** Two printings of different numbers differ, so a printed number is canonical. */
  lemma FormatInjective(a: int64, b: int64)
    requires FormatInt(a) == FormatInt(b)
    ensures a == b
  {
    ParseFormat(a);
    ParseFormat(b);
  }

  /** A printed number is a single line: no character of it ends a line. */
  lemma FormatIsLine(v: int)
    ensures forall i | 0 <= i < |FormatInt(v)| :: FormatInt(v)[i] == MINUS || IsDigit(FormatInt(v)[i])
  {
    FormatNatDenotes(if v < 0 then -v else v);
  }

  function Pow10(k: nat): (p: nat)
    ensures p >= 1
  {
    if k == 0 then 1 else 10 * Pow10(k - 1)
  }

  lemma {:induction false} FormatNatShort(n: nat, k: nat)
    requires 1 <= k && n < Pow10(k)
    ensures |FormatNat(n)| <= k
  {
    if n >= 10 {
      FormatNatShort(n / 10, k - 1);
    }
  }

  /** A printed 64-bit integer has at most twenty characters. */
  lemma FormatShort(v: int64)
    ensures |FormatInt(v)| <= 20
  {
    var w: int := v;
    assert Pow10(4) == 10000;
    assert Pow10(8) == 10000 * Pow10(4);
    assert Pow10(12) == 10000 * Pow10(8);
    assert Pow10(16) == 10000 * Pow10(12);
    assert Pow10(19) == 1000 * Pow10(16);
    FormatNatShort(if w < 0 then 0 - w else w, 19);
  }
}
