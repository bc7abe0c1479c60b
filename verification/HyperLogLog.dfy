/** HyperLogLog values (internal/storage/hyperloglog.go). */
module HyperLogLogs {
  import opened Options
  import opened Order
  import opened Bitmaps

  const REGISTERS: nat := 16384
  const HEADER_SIZE: nat := 16
  const MAX_RANK: nat := 51
  const MAGIC: Bytes := [82, 72, 76, 76]
  const DENSE: byte := 1

  /** The 64-bit hash of an element. */
  type Hash = x: nat | x < 0x1_0000_0000_0000_0000

  /** The values of the 50 bits of a hash below its index. */
  const LOW: nat := 0x4_0000_0000_0000

  // ----- where an element counts -----

  function BitLength(x: nat): nat {
    if x == 0 then 0 else 1 + BitLength(x / 2)
  }

  lemma {:induction false} BitLengthWithin(x: nat, n: nat)
    requires x < Pow2(n)
    ensures BitLength(x) <= n
    decreases n
  {
    if x > 0 && n > 0 {
      BitLengthWithin(x / 2, n - 1);
    }
  }

  lemma Twice(x: nat, p: nat)
    requires x > 0 && p > 0
    ensures x * (2 * p) == 2 * (x * p) && x * p > 0
  {
  }

  lemma BitLengthTwice(y: nat)
    requires y > 0
    ensures BitLength(2 * y) == BitLength(y) + 1
  {
    assert 2 * y / 2 == y;
  }

  lemma {:induction false} BitLengthShifted(x: nat, n: nat)
    requires x > 0
    ensures BitLength(x * Pow2(n)) == BitLength(x) + n
    decreases n
  {
    hide BitLength;
    if n > 0 {
      Twice(x, Pow2(n - 1));
      BitLengthShifted(x, n - 1);
      BitLengthTwice(x * Pow2(n - 1));
    }
  }

  lemma {:induction false} Powers()
    ensures Pow2(14) == 0x4000 && Pow2(50) == LOW
  {
    assert Pow2(1) == 2 && Pow2(2) == 4 && Pow2(3) == 8 && Pow2(4) == 16 && Pow2(5) == 32 && Pow2(6) == 64;
    assert Pow2(7) == 128;
    Pow2Sum(7, 7);
    Pow2Sum(14, 14);
    Pow2Sum(28, 14);
    Pow2Sum(42, 7);
    assert Pow2(50) == 2 * Pow2(49);
  }

  /** The top 14 bits. */
  function Index(sum: Hash): (i: nat)
    ensures i < REGISTERS && i * LOW <= sum < (i + 1) * LOW
  {
    sum / LOW
  }

  /** One more than the leading zeros behind the index, which the shift makes too many if there is nothing else. */
  function Rank(sum: Hash): int {
    var shifted := sum * 0x4000 % 0x1_0000_0000_0000_0000;
    var rank := 64 - BitLength(shifted) + 1;
    if rank > MAX_RANK then MAX_RANK else rank
  }

  /** The rank counts the leading zeros among the 50 bits below the index. */
  lemma RankExactly(sum: Hash)
    ensures Rank(sum) == MAX_RANK - BitLength(sum % LOW) && 1 <= Rank(sum) <= MAX_RANK
  {
    var low := sum % LOW;
    assert sum * 0x4000 % 0x1_0000_0000_0000_0000 == low * 0x4000 by {
      assert sum == sum / LOW * LOW + low;
      assert sum * 0x4000 == sum / LOW * 0x1_0000_0000_0000_0000 + low * 0x4000;
    }
    Powers();
    if low > 0 {
      BitLengthShifted(low, 14);
    }
    BitLengthWithin(low, 50);
  }

  // ----- registers -----

  /** One rank a register. */
  type Registers = r: seq<byte> | |r| == REGISTERS witness Zeros(REGISTERS)

  function Blank(): Registers {
    Zeros(REGISTERS)
  }

  /** `updateHyperLogLogRegisters` */
  function Updated(registers: Registers, sums: seq<Hash>): Registers {
    if sums == [] then registers
    else
      var before, sum := Updated(registers, sums[..|sums| - 1]), sums[|sums| - 1];
      RankExactly(sum);
      if before[Index(sum)] < Rank(sum) then before[Index(sum) := Rank(sum)] else before
  }

  function Max(a: int, b: int): int {
    if a < b then b else a
  }

  /** The highest rank of the elements that count in a register, 0 if there are none. */
  function Highest(sums: seq<Hash>, i: nat): int {
    if sums == [] then 0
    else
      var sum := sums[|sums| - 1];
      Max(Highest(sums[..|sums| - 1], i), if Index(sum) == i then Rank(sum) else 0)
  }

  /** It is one of their ranks, and none is higher. */
  lemma {:induction false} HighestMeans(sums: seq<Hash>, i: nat)
    ensures forall s | s in sums && Index(s) == i :: Rank(s) <= Highest(sums, i)
    ensures Highest(sums, i) == 0 || exists s | s in sums :: Index(s) == i && Rank(s) == Highest(sums, i)
  {
    hide Rank, Index;
    if sums != [] {
      var n := |sums| - 1;
      HighestMeans(sums[..n], i);
      assert forall s :: s in sums <==> s in sums[..n] || s == sums[n];
    }
  }

  /** A register ends at the highest rank it has seen, whatever the order and however often. */
  lemma {:induction false} UpdatedAt(registers: Registers, sums: seq<Hash>, i: nat)
    requires i < REGISTERS
    ensures Updated(registers, sums)[i] == Max(registers[i], Highest(sums, i))
  {
    hide Rank, Index;
    if sums != [] {
      UpdatedAt(registers, sums[..|sums| - 1], i);
      RankExactly(sums[|sums| - 1]);
    }
  }

  lemma HighestOfSame(a: seq<Hash>, b: seq<Hash>, i: nat)
    requires forall s | s in a :: s in b
    ensures Highest(a, i) <= Highest(b, i)
  {
    hide Highest, Rank, Index;
    HighestMeans(a, i);
    HighestMeans(b, i);
    HighestNatural(b, i);
  }

  lemma {:induction false} HighestNatural(sums: seq<Hash>, i: nat)
    ensures 0 <= Highest(sums, i) <= MAX_RANK
  {
    hide Rank, Index;
    if sums != [] {
      HighestNatural(sums[..|sums| - 1], i);
      RankExactly(sums[|sums| - 1]);
    }
  }

  /** The registers depend only on which elements have been added. */
  lemma SameElements(registers: Registers, a: seq<Hash>, b: seq<Hash>)
    requires forall s :: s in a <==> s in b
    ensures Updated(registers, a) == Updated(registers, b)
  {
    hide Updated, Highest;
    forall i | 0 <= i < REGISTERS ensures Updated(registers, a)[i] == Updated(registers, b)[i] {
      UpdatedAt(registers, a, i);
      UpdatedAt(registers, b, i);
      HighestOfSame(a, b, i);
      HighestOfSame(b, a, i);
    }
  }

  /** The fold of `mergeHyperLogLogRegisters`. */
  function Merged(a: Registers, b: Registers): Registers {
    seq(REGISTERS, i requires 0 <= i < REGISTERS => if a[i] < b[i] then b[i] else a[i])
  }

  lemma {:induction false} HighestOfBoth(a: seq<Hash>, b: seq<Hash>, i: nat)
    ensures Highest(a + b, i) == Max(Highest(a, i), Highest(b, i))
    decreases |b|
  {
    hide Rank, Index;
    if b == [] {
      assert a + b == a;
      HighestNatural(a, i);
    } else {
      HighestOfBoth(a, b[..|b| - 1], i);
      assert (a + b)[..|a + b| - 1] == a + b[..|b| - 1];
    }
  }

  /** Merging two values gives the registers of one that all the elements were added to. */
  lemma MergedIsUnion(a: seq<Hash>, b: seq<Hash>)
    ensures Merged(Updated(Blank(), a), Updated(Blank(), b)) == Updated(Blank(), a + b)
  {
    hide Updated, Highest;
    forall i | 0 <= i < REGISTERS
      ensures Merged(Updated(Blank(), a), Updated(Blank(), b))[i] == Updated(Blank(), a + b)[i]
    {
      UpdatedAt(Blank(), a, i);
      UpdatedAt(Blank(), b, i);
      UpdatedAt(Blank(), a + b, i);
      HighestOfBoth(a, b, i);
      HighestNatural(a, i);
      HighestNatural(b, i);
    }
  }

  // ----- the stored string -----

  /** `newHyperLogLogPayload` */
  function Fresh(): (data: Bytes)
    ensures |data| == HEADER_SIZE + REGISTERS
  {
    MAGIC + [DENSE] + Zeros(11) + Blank()
  }

  /** `hyperLogLogRegisters` */
  function Parse(data: Bytes): (r: Option<Registers>) {
    if |data| == HEADER_SIZE + REGISTERS && data[..4] == MAGIC && data[4] == DENSE
       && forall i | HEADER_SIZE <= i < |data| :: data[i] <= MAX_RANK
    then Some(data[HEADER_SIZE..])
    else None
  }

  /** The string with its registers updated; nothing if it is no such value. */
  function Added(data: Bytes, sums: seq<Hash>): Option<Bytes> {
    match Parse(data)
    case None => None
    case Some(registers) => Some(data[..HEADER_SIZE] + Updated(registers, sums))
  }

  lemma FreshParses()
    ensures Parse(Fresh()) == Some(Blank())
  {
    var data := Fresh();
    assert data[..4] == MAGIC && data[4] == DENSE;
    assert data[HEADER_SIZE..] == Blank();
  }

  lemma AddedOnly(data: Bytes, sums: seq<Hash>)
    requires Added(data, sums).Some?
    ensures Parse(data).Some?
  {
  }

  /** It stays such a value, of the same length, with the registers updated. */
  lemma AddedParses(data: Bytes, sums: seq<Hash>)
    requires Parse(data).Some?
    ensures
      var after := Added(data, sums);
      && after.Some? && |after.value| == |data|
      && Parse(after.value) == Some(Updated(Parse(data).value, sums))
  {
    hide Updated, Highest;
    var registers := Parse(data).value;
    var next := Updated(registers, sums);
    var after := Added(data, sums).value;
    assert after[..4] == data[..4] && after[HEADER_SIZE..] == next;
    forall i | HEADER_SIZE <= i < |after| ensures after[i] <= MAX_RANK {
      UpdatedAt(registers, sums, i - HEADER_SIZE);
      HighestNatural(sums, i - HEADER_SIZE);
      assert registers[i - HEADER_SIZE] == data[i];
    }
  }

  // ----- in place -----

  /** `updateHyperLogLogRegisters`, with whether a register grew. */
  method Update(registers: array<byte>, sums: seq<Hash>) returns (changed: bool)
    requires registers.Length == REGISTERS
    modifies registers
    ensures registers[..] == Updated(old(registers[..]), sums)
    ensures changed <==> registers[..] != old(registers[..])
  {
    hide Rank, Index;
    changed := false;
    ghost var before := registers[..];
    for n := 0 to |sums|
      invariant registers[..] == Updated(before, sums[..n])
      invariant changed <==> registers[..] != before
    {
      var index, rank := Index(sums[n]), Rank(sums[n]);
      RankExactly(sums[n]);
      UpdatedAt(before, sums[..n], index);
      assert sums[..n + 1][..n] == sums[..n];
      if registers[index] < rank {
        registers[index] := rank;
        assert registers[..][index] == rank;
        changed := true;
      }
    }
    assert sums[..|sums|] == sums;
  }

  /** One key of `PFCount`: its registers folded into `merged`. */
  method MergeInto(merged: array<byte>, data: Bytes) returns (ok: bool)
    requires merged.Length == REGISTERS
    modifies merged
    ensures ok == Parse(data).Some?
    ensures merged[..] == if ok then Merged(old(merged[..]), Parse(data).value) else old(merged[..])
  {
    var registers := Parse(data);
    if registers.None? {
      return false;
    }
    for i := 0 to REGISTERS
      invariant forall j | 0 <= j < i :: merged[j] == Merged(old(merged[..]), registers.value)[j]
      invariant forall j | i <= j < REGISTERS :: merged[j] == old(merged[j])
    {
      if merged[i] < registers.value[i] {
        merged[i] := registers.value[i];
      }
    }
    ok := true;
  }

  /** The value, if there is one, has had these elements added and no others. */
  ghost predicate Holds(value: Option<Bytes>, sums: seq<Hash>) {
    match value
    case None => sums == []
    case Some(data) => Parse(data).Some? && Parse(data).value == Updated(Blank(), sums)
  }

  /**
   `PFCount` of what is found under some keys: it counts what one key would to which all
   their elements had been added, whatever the estimator.
   */
  method PfCount(values: seq<Option<Bytes>>, estimate: Registers -> int, ghost batches: seq<seq<Hash>>)
    returns (count: Option<int>)
    ensures count.None? <==> exists i | 0 <= i < |values| :: values[i].Some? && Parse(values[i].value).None?
    ensures |values| == |batches| && (forall i | 0 <= i < |values| :: Holds(values[i], batches[i])) ==>
              count == Some(estimate(Updated(Blank(), Concat(batches))))
  {
    hide Parse, Updated, Merged;
    var merged := new byte[REGISTERS](_ => 0);
    assert merged[..] == Blank();
    NothingAdded(batches);
    ghost var known := |values| == |batches| && forall i | 0 <= i < |values| :: Holds(values[i], batches[i]);
    for n := 0 to |values|
      invariant known ==> merged[..] == Updated(Blank(), Concat(batches[..n]))
      invariant forall i | 0 <= i < n :: values[i].None? || Parse(values[i].value).Some?
    {
      if values[n].Some? {
        var ok := MergeInto(merged, values[n].value);
        if !ok {
          return None;
        }
      }
      if known {
        MergedIsUnion(Concat(batches[..n]), batches[n]);
        assert batches[..n + 1][..n] == batches[..n];
        assert Concat(batches[..n]) + [] == Concat(batches[..n]);
      }
    }
    assert known ==> batches[..|values|] == batches;
    count := Some(estimate(merged[..]));
  }

  ghost function Concat(batches: seq<seq<Hash>>): seq<Hash> {
    if batches == [] then [] else Concat(batches[..|batches| - 1]) + batches[|batches| - 1]
  }

  lemma NothingAdded(batches: seq<seq<Hash>>)
    ensures Updated(Blank(), Concat(batches[..0])) == Blank()
  {
  }
}
