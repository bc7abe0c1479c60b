/** Small hashes in one byte arena (internal/storage/compact_hash.go). */
module CompactHashes {
  import opened Options
  import opened Order
  import opened Keyspace

  type Pair = (Bytes, Bytes)

  /** Where a field and its value lie in the arena. */
  datatype Slot = Slot(fieldStart: nat, fieldLen: nat, valueStart: nat, valueLen: nat)

  /** Slots one behind the other, each value right behind its field, room to spare allowed. */
  ghost predicate Laid(slots: seq<Slot>, size: nat) {
    && (forall i | 0 <= i < |slots| ::
          && slots[i].valueStart == slots[i].fieldStart + slots[i].fieldLen
          && slots[i].valueStart + slots[i].valueLen <= size)
    && (forall i, j | 0 <= i < j < |slots| :: slots[i].valueStart + slots[i].valueLen <= slots[j].fieldStart)
  }

  function FieldAt(arena: Bytes, slot: Slot): Bytes
    requires slot.fieldStart + slot.fieldLen <= |arena|
  {
    arena[slot.fieldStart..slot.fieldStart + slot.fieldLen]
  }

  function ValueAt(arena: Bytes, slot: Slot): Bytes
    requires slot.valueStart + slot.valueLen <= |arena|
  {
    arena[slot.valueStart..slot.valueStart + slot.valueLen]
  }

  /** What the slots hold. */
  ghost function PairsOf(slots: seq<Slot>, arena: Bytes): seq<Pair>
    requires Laid(slots, |arena|)
  {
    seq(|slots|, i requires 0 <= i < |slots| => (FieldAt(arena, slots[i]), ValueAt(arena, slots[i])))
  }

  /** No field twice. */
  ghost predicate Distinct(pairs: seq<Pair>) {
    forall i, j | 0 <= i < j < |pairs| :: pairs[i].0 != pairs[j].0
  }

  ghost function MapOf(pairs: seq<Pair>): map<Bytes, Bytes> {
    if pairs == [] then map[]
    else MapOf(pairs[..|pairs| - 1])[pairs[|pairs| - 1].0 := pairs[|pairs| - 1].1]
  }

  lemma {:induction false} MapOfAt(pairs: seq<Pair>, i: nat)
    requires Distinct(pairs) && i < |pairs|
    ensures pairs[i].0 in MapOf(pairs) && MapOf(pairs)[pairs[i].0] == pairs[i].1
  {
    var n := |pairs| - 1;
    if i < n {
      MapOfAt(pairs[..n], i);
    }
  }

  lemma {:induction false} MapOfHas(pairs: seq<Pair>, k: Bytes)
    ensures k in MapOf(pairs) <==> exists i | 0 <= i < |pairs| :: pairs[i].0 == k
  {
    if pairs != [] {
      var n := |pairs| - 1;
      MapOfHas(pairs[..n], k);
      if k in MapOf(pairs[..n]) {
        var i :| 0 <= i < n && pairs[..n][i].0 == k;
        assert pairs[i].0 == k;
      }
      if i :| 0 <= i < |pairs| && pairs[i].0 == k {
        if i < n {
          assert pairs[..n][i].0 == k;
        }
      }
    }
  }

  lemma {:induction false} MapOfSize(pairs: seq<Pair>)
    requires Distinct(pairs)
    ensures |MapOf(pairs)| == |pairs|
  {
    if pairs != [] {
      var n := |pairs| - 1;
      MapOfSize(pairs[..n]);
      MapOfHas(pairs[..n], pairs[n].0);
      assert MapOf(pairs).Keys == MapOf(pairs[..n]).Keys + {pairs[n].0};
    }
  }

  /** One pair more, behind the others. */
  lemma MapOfMore(pairs: seq<Pair>, field: Bytes, value: Bytes)
    ensures MapOf(pairs + [(field, value)]) == MapOf(pairs)[field := value]
  {
    assert (pairs + [(field, value)])[..|pairs|] == pairs;
  }

  /** A field's value replaced. */
  lemma {:induction false} MapOfPut(pairs: seq<Pair>, i: nat, value: Bytes)
    requires Distinct(pairs) && i < |pairs|
    ensures Distinct(pairs[i := (pairs[i].0, value)])
    ensures MapOf(pairs[i := (pairs[i].0, value)]) == MapOf(pairs)[pairs[i].0 := value]
  {
    var n := |pairs| - 1;
    var now := pairs[i := (pairs[i].0, value)];
    if i < n {
      MapOfPut(pairs[..n], i, value);
      assert now[..n] == pairs[..n][i := (pairs[i].0, value)];
    } else {
      assert now[..n] == pairs[..n];
    }
  }

  function Without(pairs: seq<Pair>, i: nat): seq<Pair>
    requires i < |pairs|
  {
    pairs[..i] + pairs[i + 1..]
  }

  lemma WithoutLast(pairs: seq<Pair>, i: nat)
    requires i < |pairs| - 1
    ensures Without(pairs, i) == Without(pairs[..|pairs| - 1], i) + [pairs[|pairs| - 1]]
  {
    var n := |pairs| - 1;
    assert pairs[i + 1..] == pairs[..n][i + 1..] + [pairs[n]];
  }

  lemma WithoutDistinct(pairs: seq<Pair>, i: nat)
    requires Distinct(pairs) && i < |pairs|
    ensures Distinct(Without(pairs, i))
  {
  }

  lemma {:induction false} MapOfWithout(pairs: seq<Pair>, i: nat)
    requires Distinct(pairs) && i < |pairs|
    ensures MapOf(Without(pairs, i)) == MapOf(pairs) - {pairs[i].0}
  {
    var n := |pairs| - 1;
    if i == n {
      assert Without(pairs, i) == pairs[..n];
      MapOfHas(pairs[..n], pairs[n].0);
    } else {
      MapOfWithout(pairs[..n], i);
      WithoutLast(pairs, i);
      hide Without;
      var last := pairs[n];
      assert last == (last.0, last.1);
      assert pairs[i].0 != pairs[n].0;
      MapOfMore(Without(pairs[..n], i), last.0, last.1);
    }
  }

  lemma {:induction false} MapOfFirst(pairs: seq<Pair>, p: Pair)
    requires Distinct([p] + pairs)
    ensures MapOf([p] + pairs) == MapOf(pairs)[p.0 := p.1]
    decreases |pairs|
  {
    if pairs == [] {
      assert [p] + pairs == [p] && [p][..0] == [];
    } else {
      var n := |pairs| - 1;
      assert ([p] + pairs)[..n + 1] == [p] + pairs[..n];
      MapOfFirst(pairs[..n], p);
      var all := [p] + pairs;
      assert all[0] == p && all[n + 1] == pairs[n] && all[0].0 != all[n + 1].0;
    }
  }

  // ----- how much room it takes -----

  ghost function PairLengths(pairs: seq<Pair>): nat {
    if pairs == [] then 0
    else PairLengths(pairs[..|pairs| - 1]) + |pairs[|pairs| - 1].0| + |pairs[|pairs| - 1].1|
  }

  lemma PairLengthsMore(pairs: seq<Pair>, field: Bytes, value: Bytes)
    ensures PairLengths(pairs + [(field, value)]) == PairLengths(pairs) + |field| + |value|
  {
    assert (pairs + [(field, value)])[..|pairs|] == pairs;
  }

  lemma {:induction false} PairLengthsOf(pairs: seq<Pair>)
    requires Distinct(pairs)
    ensures PairLengths(pairs) == FieldLengths(MapOf(pairs))
  {
    if pairs != [] {
      var n := |pairs| - 1;
      PairLengthsOf(pairs[..n]);
      MapOfHas(pairs[..n], pairs[n].0);
      FieldLengthsPut(MapOf(pairs[..n]), pairs[n].0, pairs[n].1);
    }
  }

  /** The pairs are no longer than the arena they lie in. */
  lemma LaidLength(slots: seq<Slot>, arena: Bytes)
    requires Laid(slots, |arena|)
    ensures PairLengths(PairsOf(slots, arena)) <= |arena|
  {
    var pairs := PairsOf(slots, arena);
    LaidPrefix(slots, arena, pairs, |slots|);
    assert pairs[..|slots|] == pairs;
  }

  lemma {:induction false} LaidPrefix(slots: seq<Slot>, arena: Bytes, pairs: seq<Pair>, n: nat)
    requires Laid(slots, |arena|) && pairs == PairsOf(slots, arena) && n <= |slots|
    ensures PairLengths(pairs[..n]) <= if n == 0 then 0 else slots[n - 1].valueStart + slots[n - 1].valueLen
  {
    if n > 0 {
      LaidPrefix(slots, arena, pairs, n - 1);
      assert pairs[..n][..n - 1] == pairs[..n - 1];
      assert pairs[n - 1] == (FieldAt(arena, slots[n - 1]), ValueAt(arena, slots[n - 1]));
    }
  }

  /**
   The bytes out of use after a field is set: a shorter value leaves some, a longer one has the hash
   laid out anew.
   */
  function SlackAfter(fields: map<Bytes, Bytes>, slack: nat, field: Bytes, value: Bytes): nat {
    if field !in fields then slack
    else if |value| <= |fields[field]| then slack + |fields[field]| - |value|
    else 0
  }

  // ----- the layout -----

  lemma PairsMore(slots: seq<Slot>, arena: Bytes, field: Bytes, value: Bytes)
    requires Laid(slots, |arena|)
    ensures
      var now := arena + field + value;
      var slot := Slot(|arena|, |field|, |arena| + |field|, |value|);
      && Laid(slots + [slot], |now|)
      && PairsOf(slots + [slot], now) == PairsOf(slots, arena) + [(field, value)]
  {
    var now := arena + field + value;
    var slot := Slot(|arena|, |field|, |arena| + |field|, |value|);
    forall i | 0 <= i < |slots| ensures FieldAt(now, slots[i]) == FieldAt(arena, slots[i])
                                ensures ValueAt(now, slots[i]) == ValueAt(arena, slots[i])
    {
    }
    assert FieldAt(now, slot) == field && ValueAt(now, slot) == value;
  }

  /** A value no longer than the one it replaces, written over it. */
  lemma PairsShrink(slots: seq<Slot>, arena: Bytes, i: nat, value: Bytes)
    requires Laid(slots, |arena|) && i < |slots| && |value| <= slots[i].valueLen
    ensures
      var start := slots[i].valueStart;
      var now := arena[..start] + value + arena[start + |value|..];
      var shrunk := slots[i := slots[i].(valueLen := |value|)];
      && |now| == |arena| && Laid(shrunk, |now|)
      && PairsOf(shrunk, now) == PairsOf(slots, arena)[i := (PairsOf(slots, arena)[i].0, value)]
  {
    var start := slots[i].valueStart;
    var now := arena[..start] + value + arena[start + |value|..];
    var shrunk := slots[i := slots[i].(valueLen := |value|)];
    forall j | 0 <= j < |slots| && j != i ensures FieldAt(now, slots[j]) == FieldAt(arena, slots[j])
                                          ensures ValueAt(now, slots[j]) == ValueAt(arena, slots[j])
    {
      Outside(arena, start, value, slots[j].fieldStart, slots[j].fieldLen);
      Outside(arena, start, value, slots[j].valueStart, slots[j].valueLen);
    }
    Outside(arena, start, value, slots[i].fieldStart, slots[i].fieldLen);
    assert ValueAt(now, shrunk[i]) == value;
  }

  /** Bytes before or behind what was written over stay. */
  lemma Outside(arena: Bytes, start: nat, value: Bytes, from: nat, len: nat)
    requires start + |value| <= |arena| && from + len <= |arena|
    requires from + len <= start || start + |value| <= from
    ensures (arena[..start] + value + arena[start + |value|..])[from..from + len] == arena[from..from + len]
  {
    var now := arena[..start] + value + arena[start + |value|..];
    assert |now| == |arena|;
    assert forall k | from <= k < from + len :: now[k] == arena[k];
  }

  class CompactHash {
    var slots: seq<Slot>
    var arena: Bytes

    ghost predicate Valid()
      reads this
    {
      Laid(slots, |arena|) && Distinct(Pairs())
    }

    ghost function Pairs(): seq<Pair>
      requires Laid(slots, |arena|)
      reads this
    {
      PairsOf(slots, arena)
    }

    ghost function View(): map<Bytes, Bytes>
      requires Valid()
      reads this
    {
      MapOf(Pairs())
    }

    /** The bytes of the arena that are out of use. */
    ghost function Slack(): (n: nat)
      requires Valid()
      reads this
    {
      LaidLength(slots, arena);
      PairLengthsOf(Pairs());
      |arena| - FieldLengths(View())
    }

    constructor ()
      ensures Valid() && View() == map[] && Slack() == 0
    {
      slots, arena := [], [];
      new;
      assert Pairs() == [];
    }

    /** The slot of a field, or the number of slots. */
    method Find(field: Bytes) returns (i: nat)
      requires Valid()
      ensures i <= |slots| && (i < |slots| ==> Pairs()[i].0 == field)
      ensures i < |slots| <==> field in View()
    {
      hide MapOf;
      i := 0;
      while i < |slots| && FieldAt(arena, slots[i]) != field
        invariant 0 <= i <= |slots|
        invariant forall j | 0 <= j < i :: Pairs()[j].0 != field
      {
        i := i + 1;
      }
      MapOfHas(Pairs(), field);
      if i < |slots| {
        assert Pairs()[i].0 == field;
      }
    }

    /** `get` */
    method Get(field: Bytes) returns (value: Option<Bytes>)
      requires Valid()
      ensures value == if field in View() then Some(View()[field]) else None
    {
      hide MapOf;
      var i := Find(field);
      if i == |slots| {
        return None;
      }
      MapOfAt(Pairs(), i);
      return Some(ValueAt(arena, slots[i]));
    }

    /** A field that is not there yet, behind the others. */
    method Append(field: Bytes, value: Bytes)
      requires Valid() && field !in View()
      modifies this
      ensures Valid() && Pairs() == old(Pairs()) + [(field, value)] && View() == old(View())[field := value]
      ensures |arena| == old(|arena|) + |field| + |value| && Slack() == old(Slack())
    {
      hide MapOf;
      FieldLengthsPut(View(), field, value);
      PairsMore(slots, arena, field, value);
      MapOfMore(Pairs(), field, value);
      AbsentFrom(Pairs(), field);
      hide PairsOf, Laid;
      var start := |arena|;
      arena := arena + field;
      var valueStart := |arena|;
      arena := arena + value;
      slots := slots + [Slot(start, |field|, valueStart, |value|)];
    }

    /** `set` */
    method Set(field: Bytes, value: Bytes) returns (added: bool)
      requires Valid()
      modifies this
      ensures Valid() && added == (field !in old(View())) && View() == old(View())[field := value]
      ensures Slack() == SlackAfter(old(View()), old(Slack()), field, value)
    {
      hide MapOf, FieldLengths;
      ghost var pairs := Pairs();
      var i := Find(field);
      if i == |slots| {
        Append(field, value);
        return true;
      }
      MapOfAt(pairs, i);
      assert pairs[i].1 == ValueAt(arena, slots[i]);
      if |value| <= slots[i].valueLen {
        Overwrite(i, value);
      } else {
        Replace(i, field, value);
      }
      return false;
    }

    /** The in-place branch of `set`. */
    method Overwrite(i: nat, value: Bytes)
      requires Valid() && i < |slots| && |value| <= slots[i].valueLen
      modifies this
      ensures Valid() && View() == old(View())[old(Pairs())[i].0 := value]
      ensures |arena| == old(|arena|) && Slack() == old(Slack()) + |old(Pairs())[i].1| - |value|
    {
      hide MapOf, FieldLengths;
      MapOfAt(Pairs(), i);
      FieldLengthsPut(View(), Pairs()[i].0, value);
      PairsShrink(slots, arena, i, value);
      MapOfPut(Pairs(), i, value);
      var start := slots[i].valueStart;
      hide PairsOf, Laid;
      arena := arena[..start] + value + arena[start + |value|..];
      slots := slots[i := slots[i].(valueLen := |value|)];
    }

    /** The other branch: the hash is built anew, the changed field first. */
    method Replace(i: nat, field: Bytes, value: Bytes)
      requires Valid() && i < |slots| && Pairs()[i].0 == field
      modifies this
      ensures Valid() && View() == old(View())[field := value] && Slack() == 0
    {
      hide MapOf;
      ghost var pairs := Pairs();
      var others := Others(i);
      WithoutDistinct(pairs, i);
      MapOfWithout(pairs, i);
      FirstDistinct(pairs, i, value);
      MapOfFirst(others, (field, value));
      Refill([(field, value)] + others);
      assert (MapOf(pairs) - {field})[field := value] == MapOf(pairs)[field := value];
    }

    /** `del` */
    method Del(field: Bytes) returns (removed: bool)
      requires Valid()
      modifies this
      ensures Valid() && removed == (field in old(View())) && View() == old(View()) - {field}
      ensures Slack() == if removed then 0 else old(Slack())
    {
      hide MapOf;
      var i := Find(field);
      if i == |slots| {
        assert View() - {field} == View();
        return false;
      }
      ghost var pairs := Pairs();
      var others := Others(i);
      WithoutDistinct(pairs, i);
      MapOfWithout(pairs, i);
      Refill(others);
      return true;
    }

    /** The pairs of `rebuild` but for the one it skips. */
    method Others(skip: nat) returns (others: seq<Pair>)
      requires Valid() && skip < |slots|
      ensures others == Without(Pairs(), skip)
    {
      others := [];
      for i := 0 to |slots|
        invariant others == if i <= skip then Pairs()[..i] else Pairs()[..skip] + Pairs()[skip + 1..i]
      {
        if i != skip {
          others := others + [(FieldAt(arena, slots[i]), ValueAt(arena, slots[i]))];
        }
      }
    }

    /** `newCompactHash`, on this hash */
    method Refill(pairs: seq<Pair>)
      requires Distinct(pairs)
      modifies this
      ensures Valid() && Pairs() == pairs && View() == MapOf(pairs)
      ensures |arena| == PairLengths(pairs) && Slack() == 0
    {
      hide MapOf, FieldLengths;
      slots, arena := [], [];
      assert Pairs() == [];
      for i := 0 to |pairs|
        invariant Valid() && Pairs() == pairs[..i] && |arena| == PairLengths(pairs[..i])
      {
        hide PairsOf, Laid, PairLengths;
        PairLengthsMore(pairs[..i], pairs[i].0, pairs[i].1);
        NotAmong(pairs, i);
        assert pairs[..i + 1] == pairs[..i] + [(pairs[i].0, pairs[i].1)];
        Append(pairs[i].0, pairs[i].1);
      }
      assert pairs[..|pairs|] == pairs;
      PairLengthsOf(pairs);
    }

    /** `all` */
    method All() returns (pairs: seq<Pair>)
      requires Valid()
      ensures pairs == Pairs() && Distinct(pairs) && MapOf(pairs) == View()
    {
      hide MapOf;
      pairs := [];
      for i := 0 to |slots|
        invariant pairs == Pairs()[..i]
      {
        pairs := pairs + [(FieldAt(arena, slots[i]), ValueAt(arena, slots[i]))];
      }
    }
  }

  lemma AbsentFrom(pairs: seq<Pair>, field: Bytes)
    requires field !in MapOf(pairs)
    ensures forall i | 0 <= i < |pairs| :: pairs[i].0 != field
  {
    MapOfHas(pairs, field);
  }

  lemma FirstDistinct(pairs: seq<Pair>, i: nat, value: Bytes)
    requires Distinct(pairs) && i < |pairs|
    ensures Distinct([(pairs[i].0, value)] + Without(pairs, i))
  {
    var others := Without(pairs, i);
    var all := [(pairs[i].0, value)] + others;
    WithoutDistinct(pairs, i);
    forall j | 0 <= j < |others| ensures others[j].0 != pairs[i].0 {
      assert others[j] == pairs[if j < i then j else j + 1];
    }
    hide Without;
    forall a, b | 0 <= a < b < |all| ensures all[a].0 != all[b].0 {
      assert all[b] == others[b - 1];
      assert a > 0 ==> all[a] == others[a - 1];
    }
  }

  lemma NotAmong(pairs: seq<Pair>, i: nat)
    requires Distinct(pairs) && i < |pairs|
    ensures pairs[i].0 !in MapOf(pairs[..i])
  {
    MapOfHas(pairs[..i], pairs[i].0);
  }
}
