/** A set value: a sorted slice of integers, or any members (internal/storage/collection_value.go). */
module SetValues {
  import opened Options
  import opened Order
  import opened Decimal
  import opened IntSets
  import opened Payloads
  import Keyspace

  /** The first `n` of the members named. */
  ghost function Named(members: seq<Bytes>, n: nat): set<Bytes>
    requires n <= |members|
  {
    set m | m in members[..n]
  }

  lemma NamedNone(s: set<Bytes>, members: seq<Bytes>)
    ensures s - Named(members, 0) == s
  {
  }

  lemma NamedMore(s: set<Bytes>, members: seq<Bytes>, i: nat)
    requires i < |members|
    ensures s - Named(members, i + 1) == (s - Named(members, i)) - {members[i]}
  {
    assert members[..i + 1] == members[..i] + [members[i]];
  }

  lemma LessNone(p: Keyspace.Payload)
    requires IsSet(p)
    ensures LessMembers(p, []) == p
  {
    hide FormatInt;
  }

  lemma LessMore(p: Keyspace.Payload, members: seq<Bytes>, i: nat)
    requires IsSet(p) && i < |members|
    ensures LessMembers(p, members[..i + 1]) == LessMembers(LessMembers(p, members[..i]), [members[i]])
  {
    hide FormatInt;
    assert members[..i + 1] == members[..i] + [members[i]];
  }

  lemma NoneRising()
    ensures Rising([])
  {
  }

  class SetValue {
    var compact: bool
    var ints: IntSet
    var general: set<Bytes>

    ghost predicate Valid()
      reads this, ints
    {
      compact ==> ints.Valid() && |ints.values| <= INT_SET_MAX_ENTRIES
    }

    /** The members, whatever the encoding. */
    ghost function View(): set<Bytes>
      reads this, ints
    {
      if compact then ints.View() else general
    }

    /** The value as the store accounts for it. */
    ghost function Content(): (p: Keyspace.Payload)
      reads this, ints
      ensures IsSet(p) && MembersIn(p) == View()
    {
      if compact then Keyspace.IntSet(Ints(ints.values)) else Keyspace.Set(general)
    }

    /** `newSetValueForMembers` */
    constructor ForMembers(members: seq<Bytes>)
      ensures Valid() && fresh(ints) && Content() == NewSet(members)
    {
      hide Texts, Ints, Rising, ParseMember, IntsAmong;
      var parsed := ParseMembers(members);
      var values := [];
      if parsed.Some? {
        values := Unique(parsed.value);
        RisingSize(values);
      }
      compact := parsed.Some? && |values| <= INT_SET_MAX_ENTRIES;
      general := set m | m in members;
      NoneRising();
      ints := new IntSet(values);
    }

    /** `setAdd` */
    method Add(members: seq<Bytes>) returns (added: int)
      requires Valid()
      modifies this, ints
      ensures Valid() && ints == old(ints)
      ensures View() == old(View()) + (set m | m in members) && added == |View()| - |old(View())|
      ensures compact ==> old(compact)
      ensures old(compact) ==>
                (compact <==> |View()| <= INT_SET_MAX_ENTRIES && AllInts(members))
      ensures Content() == AddMembers(old(Content()), members)
    {
      hide Texts, Ints, Rising, ParseMember, IntsAmong;
      if compact {
        var ok;
        added, ok := ints.AddMany(members);
        ViewSize(ints.values);
        RisingSize(ints.values);
        if !ok {
          general := GeneralSet(ints.values);
          compact := false;
          added := AddGeneral(members);
        } else if |ints.values| > INT_SET_MAX_ENTRIES {
          general := GeneralSet(ints.values);
          compact := false;
        }
        return;
      }
      added := AddGeneral(members);
    }

    /** `mustAddSetMembers` */
    method AddGeneral(members: seq<Bytes>) returns (added: int)
      modifies `general
      ensures general == old(general) + (set m | m in members) && added == |general| - |old(general)|
    {
      added := 0;
      for i := 0 to |members|
        invariant general == old(general) + (set m | m in members[..i]) && added == |general| - |old(general)|
      {
        assert members[..i + 1] == members[..i] + [members[i]];
        if members[i] !in general {
          general := general + {members[i]};
          added := added + 1;
        } else {
          assert general + {members[i]} == general;
        }
      }
      assert members[..|members|] == members;
    }

    /** `setRemove` */
    method Remove(members: seq<Bytes>) returns (removed: int)
      requires Valid()
      modifies this, ints
      ensures Valid() && ints == old(ints) && compact == old(compact)
      ensures View() == old(View()) - Named(members, |members|) && removed == |old(View())| - |View()|
      ensures Content() == LessMembers(old(Content()), members)
    {
      hide Texts, Ints, Rising, ParseMember, Named, LessMembers;
      removed := 0;
      NamedNone(View(), members);
      LessNone(Content());
      assert members[..0] == [];
      for i := 0 to |members|
        invariant Valid() && ints == old(ints) && compact == old(compact)
        invariant Content() == LessMembers(old(Content()), members[..i])
        invariant View() == old(View()) - Named(members, i) && removed == |old(View())| - |View()|
      {
        NamedMore(old(View()), members, i);
        LessMore(old(Content()), members, i);
        ghost var before := View();
        var gone := RemoveOne(members[i]);
        if gone {
          removed := removed + 1;
        } else {
          assert before - {members[i]} == before;
        }
      }
      assert members[..|members|] == members;
    }

    method RemoveOne(member: Bytes) returns (gone: bool)
      requires Valid()
      modifies this, ints
      ensures Valid() && ints == old(ints) && compact == old(compact)
      ensures gone == (member in old(View())) && View() == old(View()) - {member}
      ensures Content() == LessMembers(old(Content()), [member])
    {
      hide Texts, Ints, Rising, ParseMember, FormatInt;
      assert (set m | m in [member]) == {member};
      if compact {
        ViewSize(ints.values);
        ghost var before := View();
        gone := ints.Remove(member);
        ViewSize(ints.values);
        assert |View()| <= |before|;
      } else {
        gone := member in general;
        general := general - {member};
      }
    }

    /** `setContains` */
    method Contains(member: Bytes) returns (found: bool)
      requires Valid()
      ensures found <==> member in View()
    {
      hide Texts, Ints, Rising, ParseMember;
      if compact {
        found := ints.Contains(member);
      } else {
        found := member in general;
      }
    }

    /** `setLen` */
    method Len() returns (n: nat)
      requires Valid()
      ensures n == |View()|
    {
      hide Texts, Ints, Rising, ParseMember;
      if compact {
        ViewSize(ints.values);
        n := |ints.values|;
      } else {
        n := |general|;
      }
    }
  }

  /** `generalSet` */
  method GeneralSet(values: seq<int64>) returns (members: set<Bytes>)
    ensures members == Texts(Ints(values))
  {
    hide FormatInt;
    members := {};
    for i := 0 to |values|
      invariant members == Texts(Ints(values[..i]))
    {
      IntsMore(values, i);
      OneText(Ints(values[..i]), values[i]);
      members := members + {FormatInt(values[i])};
    }
    assert values[..|values|] == values;
  }

  lemma OneText(ints: set<int64>, v: int64)
    ensures Texts(ints + {v}) == Texts(ints) + {FormatInt(v)}
  {
  }

  datatype Op = AddOp(members: seq<Bytes>) | RemoveOp(members: seq<Bytes>)

  /** What a plain set makes of a run, and the counts it reports. */
  ghost function Plain(ops: seq<Op>, start: set<Bytes>): (set<Bytes>, seq<int>) {
    if ops == [] then (start, [])
    else
      var n := |ops| - 1;
      var (s, counts) := Plain(ops[..n], start);
      var (t, count) := Step(ops[n], s);
      (t, counts + [count])
  }

  ghost function Step(op: Op, s: set<Bytes>): (set<Bytes>, int) {
    match op
    case AddOp(members) => (s + (set m | m in members), |s + set m | m in members| - |s|)
    case RemoveOp(members) => (s - Named(members, |members|), |s| - |s - Named(members, |members|)|)
  }

  lemma PlainMore(ops: seq<Op>, i: nat, start: set<Bytes>)
    requires i < |ops|
    ensures Plain(ops[..i + 1], start) ==
            (Step(ops[i], Plain(ops[..i], start).0).0,
             Plain(ops[..i], start).1 + [Step(ops[i], Plain(ops[..i], start).0).1])
  {
    hide Step;
    assert ops[..i + 1][..i] == ops[..i];
  }

  lemma PlainNone(start: set<Bytes>)
    ensures Plain([], start) == (start, [])
  {
  }

  method Apply(value: SetValue, op: Op) returns (count: int)
    requires value.Valid()
    modifies value, value.ints
    ensures value.Valid() && value.ints == old(value.ints) && (value.View(), count) == Step(op, old(value.View()))
  {
    hide Texts, Ints, Rising, ParseMember, Named;
    match op {
      case AddOp(members) => count := value.Add(members);
      case RemoveOp(members) => count := value.Remove(members);
    }
  }

  /** Any run of additions and removals gives the members and counts of a plain set, in whatever encoding. */
  method Run(value: SetValue, ops: seq<Op>) returns (counts: seq<int>)
    requires value.Valid()
    modifies value, value.ints
    ensures value.Valid() && (value.View(), counts) == Plain(ops, old(value.View()))
  {
    hide Texts, Ints, Rising, Step, Plain;
    counts := [];
    PlainNone(value.View());
    assert ops[..0] == [];
    for i := 0 to |ops|
      invariant value.Valid() && value.ints == old(value.ints)
      invariant (value.View(), counts) == Plain(ops[..i], old(value.View()))
    {
      PlainMore(ops, i, old(value.View()));
      var count := Apply(value, ops[i]);
      counts := counts + [count];
    }
    assert ops[..|ops|] == ops;
  }
}
