/** The sorted slice of integers behind small sets (internal/storage/intset.go). */
module IntSets {
  import opened Options
  import opened Order
  import opened Decimal
  import opened Splices
  import opened Sorting

  ghost predicate Rising(s: seq<int64>) {
    forall i, j | 0 <= i < j < |s| :: s[i] < s[j]
  }

  ghost predicate NotFalling(s: seq<int64>) {
    forall i, j | 0 <= i < j < |s| :: s[i] <= s[j]
  }

  ghost function Ints(s: seq<int64>): set<int64> {
    set v | v in s
  }

  /** The members the integers stand for. */
  function Texts(ints: set<int64>): set<Bytes> {
    set v | v in ints :: FormatInt(v)
  }

  /** `parseIntSetMember`: only the form an integer prints as counts. */
  function ParseMember(member: Bytes): Option<int64> {
    var parsed := ParseInt(member);
    if parsed.Ok? && FormatInt(parsed.value) == member then Some(parsed.value) else None
  }

  lemma MemberIsText(member: Bytes, v: int64)
    ensures ParseMember(member) == Some(v) <==> member == FormatInt(v)
  {
    ParseFormat(v);
  }

  predicate AllInts(members: seq<Bytes>) {
    forall m | m in members :: ParseMember(m).Some?
  }

  /** The integers among some members. */
  function IntsAmong(members: seq<Bytes>): set<int64> {
    set m | m in members && ParseMember(m).Some? :: ParseMember(m).value
  }

  /** A member is in the set exactly when it is the text of an integer that is. */
  lemma TextsHas(ints: set<int64>, member: Bytes)
    ensures member in Texts(ints) <==> ParseMember(member).Some? && ParseMember(member).value in ints
  {
    hide ParseMember, FormatInt;
    forall v: int64 {
      MemberIsText(member, v);
    }
  }

  lemma {:induction false} TextsSize(ints: set<int64>)
    ensures |Texts(ints)| == |ints|
    decreases |ints|
  {
    if v :| v in ints {
      TextsSize(ints - {v});
      assert FormatInt(v) !in Texts(ints - {v}) by {
        TextsHas(ints - {v}, FormatInt(v));
        MemberIsText(FormatInt(v), v);
      }
      assert Texts(ints) == Texts(ints - {v}) + {FormatInt(v)};
    } else {
      assert Texts(ints) == {};
    }
  }

  lemma {:induction false} RisingSize(s: seq<int64>)
    requires Rising(s)
    ensures |Ints(s)| == |s|
    decreases |s|
  {
    if s != [] {
      var n := |s| - 1;
      RisingSize(s[..n]);
      assert Ints(s) == Ints(s[..n]) + {s[n]};
    }
  }

  // ----- sorting and removing duplicates -----

  /** `slices.Sort` */
  method SortInts(items: seq<int64>) returns (sorted: seq<int64>)
    ensures NotFalling(sorted) && Ints(sorted) == Ints(items)
  {
    var less := (a: int64, b: int64) => a < b;
    sorted := Sort(items, less);
    SameMembers(sorted, items);
    forall i, j | 0 <= i < j < |sorted| ensures sorted[i] <= sorted[j] {
      assert !less(sorted[j], sorted[i]);
    }
  }

  /** `compactUniqueInts`, in place: the first `n` places hold each value once. */
  method CompactUnique(a: array<int64>) returns (n: nat)
    requires NotFalling(a[..])
    modifies a
    ensures n <= a.Length && Rising(a[..n]) && Ints(a[..n]) == old(Ints(a[..]))
  {
    ghost var all := a[..];
    if a.Length < 2 {
      assert a[..a.Length] == all;
      return a.Length;
    }
    n := 1;
    ghost var kept := [all[0]];
    assert all[..1] == kept;
    for i := 1 to a.Length
      invariant 1 <= n == |kept| <= i && (forall k | 0 <= k < n :: a[k] == kept[k])
      invariant forall k | i <= k < a.Length :: a[k] == all[k]
      invariant Compacted(kept, all, i)
    {
      hide Compacted;
      var value := a[i];
      CompactedMore(kept, all, i);
      if value != a[n - 1] {
        a[n] := value;
        kept := kept + [value];
        n := n + 1;
      }
    }
    assert a[..n] == kept && all[..a.Length] == all;
  }

  /** Each of the first `i` values once. */
  ghost predicate Compacted(kept: seq<int64>, all: seq<int64>, i: nat)
    requires 0 < i <= |all|
  {
    kept != [] && Rising(kept) && kept[|kept| - 1] == all[i - 1] && Ints(kept) == Ints(all[..i])
  }

  lemma CompactedMore(kept: seq<int64>, all: seq<int64>, i: nat)
    requires NotFalling(all) && 0 < i < |all| && Compacted(kept, all, i)
    ensures kept != []
    ensures Compacted(if all[i] == kept[|kept| - 1] then kept else kept + [all[i]], all, i + 1)
  {
    hide Rising, Ints;
    assert all[i - 1] <= all[i];
    assert all[..i + 1] == all[..i] + [all[i]];
    OneMore(kept, all[..i], all[i]);
  }

  lemma OneMore(kept: seq<int64>, seen: seq<int64>, v: int64)
    requires kept != [] && Rising(kept) && Ints(kept) == Ints(seen) && kept[|kept| - 1] <= v
    ensures if v == kept[|kept| - 1] then Ints(kept) == Ints(seen + [v])
            else Rising(kept + [v]) && Ints(kept + [v]) == Ints(seen + [v])
  {
    assert Ints(seen + [v]) == Ints(seen) + {v};
    assert Ints(kept + [v]) == Ints(kept) + {v};
    if v == kept[|kept| - 1] {
      assert v in Ints(kept);
    }
  }

  // ----- merging -----

  /** Everything in `s` is below what is left of `t` from `i` on. */
  ghost predicate Below(s: seq<int64>, t: seq<int64>, i: nat) {
    i < |t| ==> forall k | 0 <= k < |s| :: s[k] < t[i]
  }

  /** How far a merge of `a` and `b` has come. */
  ghost predicate Merging(a: seq<int64>, b: seq<int64>, i: nat, j: nat, merged: seq<int64>) {
    && i <= |a| && j <= |b|
    && Rising(merged) && Below(merged, a, i) && Below(merged, b, j)
    && Ints(merged) == Ints(a[..i]) + Ints(b[..j])
  }

  lemma {:induction false} IntsMore(s: seq<int64>, i: nat)
    requires i < |s|
    ensures Ints(s[..i + 1]) == Ints(s[..i]) + {s[i]}
  {
    assert s[..i + 1] == s[..i] + [s[i]];
  }

  /** The next value goes behind what is merged; `di` and `dj` say where it was taken from. */
  lemma MergeStep(a: seq<int64>, b: seq<int64>, i: nat, j: nat, merged: seq<int64>, v: int64, di: nat, dj: nat)
    requires Rising(a) && Rising(b) && Merging(a, b, i, j, merged) && i < |a| && j < |b|
    requires v == if a[i] < b[j] then a[i] else b[j]
    requires di == (if a[i] <= b[j] then 1 else 0) && dj == (if b[j] <= a[i] then 1 else 0)
    ensures Merging(a, b, i + di, j + dj, merged + [v])
  {
    BelowMore(merged, v, a, i, di);
    BelowMore(merged, v, b, j, dj);
    RisingMore(merged, v);
    IntsMore(a, i);
    IntsMore(b, j);
    assert Ints(merged + [v]) == Ints(merged) + {v};
    hide Rising, Below, Ints;
  }

  lemma BelowMore(merged: seq<int64>, v: int64, t: seq<int64>, i: nat, d: nat)
    requires Rising(t) && i < |t| && Below(merged, t, i) && v <= t[i] && d == if v == t[i] then 1 else 0
    ensures Below(merged + [v], t, i + d)
    ensures forall k | 0 <= k < |merged| :: merged[k] < t[i]
  {
  }

  lemma RisingMore(merged: seq<int64>, v: int64)
    requires Rising(merged) && forall k | 0 <= k < |merged| :: merged[k] < v
    ensures Rising(merged + [v])
  {
  }

  /** The rest of one side goes behind what is merged when the other side is used up. */
  lemma {:induction false} MergeTail(a: seq<int64>, b: seq<int64>, i: nat, j: nat, merged: seq<int64>)
    requires Rising(a) && Rising(b) && Merging(a, b, i, j, merged) && (i == |a| || j == |b|)
    ensures Rising(merged + a[i..] + b[j..])
    ensures Ints(merged + a[i..] + b[j..]) == Ints(a) + Ints(b)
  {
    hide Rising, Ints;
    TailInts(a, b, i, j, merged);
    if i == |a| {
      TailRising(b, j, merged);
      assert merged + a[i..] + b[j..] == merged + b[j..];
    } else {
      TailRising(a, i, merged);
      assert merged + a[i..] + b[j..] == merged + a[i..];
    }
  }

  lemma TailRising(t: seq<int64>, i: nat, merged: seq<int64>)
    requires Rising(t) && Rising(merged) && i <= |t| && Below(merged, t, i)
    ensures Rising(merged + t[i..])
  {
    RisingJoin(merged, t[i..]);
  }

  lemma TailInts(a: seq<int64>, b: seq<int64>, i: nat, j: nat, merged: seq<int64>)
    requires i <= |a| && j <= |b| && Ints(merged) == Ints(a[..i]) + Ints(b[..j])
    ensures Ints(merged + a[i..] + b[j..]) == Ints(a) + Ints(b)
  {
    hide Ints;
    IntsConcat(a[..i], a[i..]);
    IntsConcat(b[..j], b[j..]);
    IntsConcat(merged, a[i..]);
    IntsConcat(merged + a[i..], b[j..]);
    assert a == a[..i] + a[i..] && b == b[..j] + b[j..];
  }

  lemma IntsConcat(a: seq<int64>, b: seq<int64>)
    ensures Ints(a + b) == Ints(a) + Ints(b)
  {
  }

  lemma RisingJoin(a: seq<int64>, b: seq<int64>)
    requires Rising(a) && Rising(b) && (b != [] ==> forall k | 0 <= k < |a| :: a[k] < b[0])
    ensures Rising(a + b)
  {
  }

  /** The merging loop of `addMany`. */
  method Merge(a: seq<int64>, b: seq<int64>) returns (merged: seq<int64>, added: int)
    requires Rising(a) && Rising(b)
    ensures Rising(merged) && Ints(merged) == Ints(a) + Ints(b) && added == |merged| - |a|
  {
    hide Rising, Ints, Merging;
    var i, j := 0, 0;
    merged, added := [], 0;
    MergeStart(a, b);
    while i < |a| && j < |b|
      invariant i <= |a| && j <= |b| && Merging(a, b, i, j, merged) && |merged| == i + added
      decreases |a| + |b| - i - j
    {
      var left, right := a[i], b[j];
      if left < right {
        MergeStep(a, b, i, j, merged, left, 1, 0);
        merged, i := merged + [left], i + 1;
      } else if left > right {
        MergeStep(a, b, i, j, merged, right, 0, 1);
        merged, j, added := merged + [right], j + 1, added + 1;
      } else {
        MergeStep(a, b, i, j, merged, right, 1, 1);
        merged, i, j := merged + [left], i + 1, j + 1;
      }
    }
    MergeTail(a, b, i, j, merged);
    ghost var start := merged;
    merged := merged + a[i..];
    if j < |b| {
      added := added + |b| - j;
      merged := merged + b[j..];
    } else {
      assert merged == merged + b[j..];
    }
  }

  lemma MergeStart(a: seq<int64>, b: seq<int64>)
    ensures Merging(a, b, 0, 0, [])
  {
    assert a[..0] == [] && b[..0] == [];
  }

  /** `slices.BinarySearch` */
  method Search(s: seq<int64>, v: int64) returns (index: nat, found: bool)
    requires Rising(s)
    ensures index <= |s| && found == (v in s) && (found ==> index < |s| && s[index] == v)
  {
    var low, high := 0, |s|;
    while low < high
      invariant 0 <= low <= high <= |s|
      invariant forall i | 0 <= i < low :: s[i] < v
      invariant forall i | high <= i < |s| :: s[i] >= v
    {
      var middle := (low + high) / 2;
      if s[middle] < v {
        low := middle + 1;
      } else {
        high := middle;
      }
    }
    index := low;
    found := low < |s| && s[low] == v;
  }

  /** `parseIntSetMembers` */
  method ParseMembers(members: seq<Bytes>) returns (values: Option<seq<int64>>)
    ensures values.Some? <==> AllInts(members)
    ensures values.Some? ==> Ints(values.value) == IntsAmong(members)
  {
    hide ParseMember, IntsAmong, Ints;
    var parsed: seq<int64> := [];
    for i := 0 to |members|
      invariant |parsed| == i
      invariant forall k | 0 <= k < i :: ParseMember(members[k]) == Some(parsed[k])
    {
      var value := ParseMember(members[i]);
      if value.None? {
        assert members[i] in members;
        return None;
      }
      parsed := parsed + [value.value];
    }
    values := Some(parsed);
    ParsedInts(members, parsed);
  }

  lemma ParsedInts(members: seq<Bytes>, parsed: seq<int64>)
    requires |parsed| == |members| && forall k | 0 <= k < |members| :: ParseMember(members[k]) == Some(parsed[k])
    ensures Ints(parsed) == IntsAmong(members)
  {
    hide ParseMember;
    forall v ensures v in Ints(parsed) <==> v in IntsAmong(members) {
      if v in Ints(parsed) {
        var k :| 0 <= k < |parsed| && parsed[k] == v;
        assert members[k] in members;
      }
      if v in IntsAmong(members) {
        var m :| m in members && ParseMember(m) == Some(v);
        var k :| 0 <= k < |members| && members[k] == m;
        assert parsed[k] in parsed;
      }
    }
  }

  lemma ParsedTexts(members: seq<Bytes>)
    requires AllInts(members)
    ensures Texts(IntsAmong(members)) == set m | m in members
  {
    hide FormatInt, ParseMember;
    forall m ensures m in Texts(IntsAmong(members)) <==> m in members {
      TextsHas(IntsAmong(members), m);
      if m in members {
        assert ParseMember(m).value in IntsAmong(members);
      }
      if m in Texts(IntsAmong(members)) {
        var j :| j in members && ParseMember(j).Some? && ParseMember(j).value == ParseMember(m).value;
        SameMember(j, m);
      }
    }
  }

  lemma SameMember(a: Bytes, b: Bytes)
    requires ParseMember(a).Some? && ParseMember(a) == ParseMember(b)
    ensures a == b
  {
    hide FormatInt;
    var v := ParseMember(a).value;
    assert a == FormatInt(v) && b == FormatInt(v);
  }

  class IntSet {
    var values: seq<int64>

    ghost predicate Valid()
      reads this
    {
      Rising(values)
    }

    ghost function View(): set<Bytes>
      reads this
    {
      Texts(Ints(values))
    }

    constructor (values: seq<int64>)
      requires Rising(values)
      ensures Valid() && this.values == values
    {
      this.values := values;
    }

    /** `addMany`; it refuses all of them if one is not an integer in its printed form. */
    method AddMany(members: seq<Bytes>) returns (added: int, ok: bool)
      requires Valid()
      modifies this
      ensures Valid()
      ensures ok <==> AllInts(members)
      ensures ok ==> Ints(values) == old(Ints(values)) + IntsAmong(members)
      ensures ok ==> View() == old(View()) + (set m | m in members) && added == |View()| - |old(View())|
      ensures !ok ==> values == old(values)
    {
      hide Rising, Texts, Ints, ParseMember, IntsAmong;
      var parsed := ParseMembers(members);
      if parsed.None? {
        return 0, false;
      }
      ParsedTexts(members);
      var incoming := Unique(parsed.value);
      ViewSize(values);
      ViewSize(incoming);
      var merged;
      if incoming == [] {
        NoInts(values);
        return 0, true;
      }
      merged, added := Merge(values, incoming);
      ViewSize(merged);
      TextsUnion(Ints(values), Ints(incoming));
      values := merged;
      ok := true;
    }

    /** `contains` */
    method Contains(member: Bytes) returns (found: bool)
      requires Valid()
      ensures found <==> member in View()
    {
      TextsHas(Ints(values), member);
      var value := ParseMember(member);
      if value.None? {
        return false;
      }
      var index;
      index, found := Search(values, value.value);
    }

    /** `remove` */
    method Remove(member: Bytes) returns (removed: bool)
      requires Valid()
      modifies this
      ensures Valid() && removed == (member in old(View())) && View() == old(View()) - {member}
      ensures Ints(values) == set v | v in old(Ints(values)) && FormatInt(v) != member
    {
      TextsHas(Ints(values), member);
      var value := ParseMember(member);
      hide FormatInt;
      if value.None? {
        return false;
      }
      var index;
      index, removed := Search(values, value.value);
      if removed {
        RemovedInt(values, index, member);
        values := RemoveAt(values, index);
      }
    }
  }

  /** Sorted, each once. */
  method Unique(items: seq<int64>) returns (r: seq<int64>)
    ensures Rising(r) && Ints(r) == Ints(items)
  {
    var sorted := SortInts(items);
    var a := new int64[|sorted|](i requires 0 <= i < |sorted| => sorted[i]);
    assert a[..] == sorted;
    var n := CompactUnique(a);
    r := a[..n];
  }

  lemma ViewSize(s: seq<int64>)
    requires Rising(s)
    ensures |Texts(Ints(s))| == |s|
  {
    RisingSize(s);
    TextsSize(Ints(s));
  }

  lemma NoInts(values: seq<int64>)
    ensures Texts(Ints(values)) + Texts(Ints([])) == Texts(Ints(values))
    ensures Ints(values) + Ints([]) == Ints(values)
  {
  }

  lemma TextsUnion(a: set<int64>, b: set<int64>)
    ensures Texts(a + b) == Texts(a) + Texts(b)
  {
  }

  lemma RemovedInt(s: seq<int64>, index: nat, member: Bytes)
    requires Rising(s) && index < |s| && ParseMember(member) == Some(s[index])
    ensures Rising(RemoveAt(s, index)) && Texts(Ints(RemoveAt(s, index))) == Texts(Ints(s)) - {member}
    ensures Ints(RemoveAt(s, index)) == Ints(s) - {s[index]}
  {
    var r := RemoveAt(s, index);
    forall v ensures v in r <==> v in s && v != s[index] {
      RemoveMembers(s, index, v);
    }
    hide RemoveAt;
    forall m ensures m in Texts(Ints(r)) <==> m in Texts(Ints(s)) && m != member {
      TextsHas(Ints(r), m);
      TextsHas(Ints(s), m);
    }
  }
}
