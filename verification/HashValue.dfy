/** A hash value: a compact arena or a map (internal/storage/collection_value.go). */
module HashValues {
  import opened Options
  import opened Order
  import opened CompactHashes
  import opened Payloads
  import opened Sets
  import Keyspace

  /** Few and short enough for the compact form. */
  ghost predicate Small(fields: Fields) {
    |fields| <= HASH_MAX_ENTRIES && forall f | f in fields :: |f| <= HASH_MAX_STRING && |fields[f]| <= HASH_MAX_STRING
  }

  lemma SetMore(pairs: seq<Pair>, i: nat, fields: Fields)
    requires i < |pairs|
    ensures SetAll(pairs[..i + 1], fields) == SetAll(pairs[..i], fields)[pairs[i].0 := pairs[i].1]
  {
    assert pairs[..i + 1][..i] == pairs[..i];
  }

  lemma SlackMore(pairs: seq<Pair>, i: nat, fields: Fields, slack: nat)
    requires i < |pairs|
    ensures SlackAll(pairs[..i + 1], fields, slack) ==
            SlackAfter(SetAll(pairs[..i], fields), SlackAll(pairs[..i], fields, slack), pairs[i].0, pairs[i].1)
  {
    hide SetAll, SlackAfter;
    assert pairs[..i + 1][..i] == pairs[..i];
  }

  lemma {:induction false} SetKeys(pairs: seq<Pair>, fields: Fields)
    ensures SetAll(pairs, fields).Keys == fields.Keys + set p | p in pairs :: p.0
  {
    if pairs != [] {
      var n := |pairs| - 1;
      SetKeys(pairs[..n], fields);
      assert pairs == pairs[..n] + [pairs[n]];
      assert (set p | p in pairs :: p.0) == (set p | p in pairs[..n] :: p.0) + {pairs[n].0};
    }
  }

  lemma SizeAfter(fields: Fields, f: Bytes, v: Bytes)
    ensures |fields[f := v]| == |fields| + if f in fields then 0 else 1
  {
    assert fields[f := v].Keys == fields.Keys + {f};
  }

  lemma SizeWithout(fields: Fields, f: Bytes)
    ensures |fields - {f}| == |fields| - if f in fields then 1 else 0
  {
    assert (fields - {f}).Keys == fields.Keys - {f};
  }

  lemma {:induction false} SetSmall(pairs: seq<Pair>, fields: Fields)
    requires SmallPairs(pairs) && forall f | f in fields :: |f| <= HASH_MAX_STRING && |fields[f]| <= HASH_MAX_STRING
    ensures forall f | f in SetAll(pairs, fields) ::
              |f| <= HASH_MAX_STRING && |SetAll(pairs, fields)[f]| <= HASH_MAX_STRING
  {
    if pairs != [] {
      var n := |pairs| - 1;
      assert forall p | p in pairs[..n] :: p in pairs;
      assert pairs[n] in pairs;
      SetSmall(pairs[..n], fields);
    }
  }

  /** The fields without those named. */
  ghost function DropAll(m: Fields, fields: seq<Bytes>): Fields {
    m - (set f | f in fields)
  }

  lemma DropMore(m: Fields, fields: seq<Bytes>, i: nat)
    requires i < |fields|
    ensures DropAll(m, fields[..i + 1]) == DropAll(m, fields[..i]) - {fields[i]}
  {
    assert fields[..i + 1] == fields[..i] + [fields[i]];
  }

  lemma LessNone(p: Keyspace.Payload)
    requires IsHash(p)
    ensures LessFields(p, []) == p
  {
    assert p.fields - (set f | f in []) == p.fields;
  }

  lemma LessDrops(p: Keyspace.Payload, fields: seq<Bytes>)
    requires IsHash(p)
    ensures LessFields(p, fields).fields == DropAll(p.fields, fields)
  {
  }

  lemma LessOne(p: Keyspace.Payload, field: Bytes)
    requires IsHash(p)
    ensures LessFields(p, [field]) ==
            if p.Hash? then Keyspace.Hash(p.fields - {field})
            else Keyspace.CompactHash(p.fields - {field}, if field in p.fields then 0 else p.slack)
  {
    assert (set f | f in [field]) == {field};
    assert p.fields - {field} == p.fields <==> field !in p.fields;
  }

  lemma SmallWithout(fields: Fields, f: Bytes)
    requires Small(fields)
    ensures Small(fields - {f})
  {
    SizeWithout(fields, f);
  }

  lemma LessMore(p: Keyspace.Payload, fields: seq<Bytes>, i: nat)
    requires IsHash(p) && i < |fields|
    ensures LessFields(p, fields[..i + 1]) == LessFields(LessFields(p, fields[..i]), [fields[i]])
  {
    DropMore(p.fields, fields, i);
    assert (set f | f in [fields[i]]) == {fields[i]};
  }

  class HashValue {
    var compact: bool
    var small: CompactHash
    var general: Fields

    ghost predicate Valid()
      reads this, small
    {
      compact ==> small.Valid() && Small(small.View())
    }

    ghost function View(): Fields
      requires Valid()
      reads this, small
    {
      if compact then small.View() else general
    }

    /** The value as the store accounts for it. */
    ghost function Content(): (p: Keyspace.Payload)
      requires Valid()
      reads this, small
      ensures IsHash(p) && p.fields == View()
    {
      if compact then Keyspace.CompactHash(small.View(), small.Slack()) else Keyspace.Hash(general)
    }

    /** `newHashValueForPairs` */
    constructor ForPairs(pairs: seq<Pair>)
      ensures Valid() && fresh(small) && Content() == NewHash(pairs)
    {
      var fields, eligible := FieldsOf(pairs);
      if eligible && |fields| <= HASH_MAX_ENTRIES {
        SetSmall(pairs, map[]);
        var hash := CompactFromMap(fields);
        small := hash;
        compact, general := true, map[];
      } else {
        small := new CompactHash();
        compact, general := false, fields;
      }
    }

    /** `compactHashCanSet` */
    method CanSet(pairs: seq<Pair>) returns (ok: bool)
      requires Valid() && compact
      ensures ok <==> SmallPairs(pairs) && |SetAll(pairs, View())| <= HASH_MAX_ENTRIES
    {
      hide MapOf;
      ghost var view := View();
      var entries := small.All();
      MapOfSize(entries);
      var projected := |entries|;
      var added: set<Bytes> := {};
      ProjectNone(pairs, view);
      for i := 0 to |pairs|
        invariant Projected(pairs, i, view, added)
        invariant projected == |view| + |added| <= HASH_MAX_ENTRIES
      {
        hide Projected, SetAll;
        var field, value := pairs[i].0, pairs[i].1;
        if |field| > HASH_MAX_STRING || |value| > HASH_MAX_STRING {
          assert pairs[i] in pairs;
          return false;
        }
        ProjectStep(pairs, i, view, added);
        var found := small.Get(field);
        if found.None? && field !in added {
          added := added + {field};
          projected := projected + 1;
          if projected > HASH_MAX_ENTRIES {
            TooMany(pairs, i + 1, view, added);
            return false;
          }
        }
      }
      ProjectAll(pairs, view, added);
      return true;
    }

    /** `hashSet` */
    method Set(pairs: seq<Pair>) returns (added: int)
      requires Valid()
      modifies this, small
      ensures Valid() && small == old(small)
      ensures View() == SetAll(pairs, old(View())) && added == |View()| - |old(View())|
      ensures compact ==> old(compact)
      ensures old(compact) ==> (compact <==> SmallPairs(pairs) && |View()| <= HASH_MAX_ENTRIES)
      ensures Content() == SetFields(old(Content()), pairs)
    {
      hide MapOf;
      if compact {
        var fits := CanSet(pairs);
        if fits {
          SetSmall(pairs, View());
          added := SetCompact(pairs);
          return;
        }
        Upgrade();
      }
      added := SetGeneral(pairs);
    }

    method SetCompact(pairs: seq<Pair>) returns (added: int)
      requires small.Valid()
      modifies small
      ensures small.Valid() && small.View() == SetAll(pairs, old(small.View()))
      ensures added == |small.View()| - |old(small.View())|
      ensures small.Slack() == SlackAll(pairs, old(small.View()), old(small.Slack()))
    {
      hide MapOf, SlackAfter;
      added := 0;
      for i := 0 to |pairs|
        invariant small.Valid() && small.View() == SetAll(pairs[..i], old(small.View()))
        invariant small.Slack() == SlackAll(pairs[..i], old(small.View()), old(small.Slack()))
        invariant added == |small.View()| - |old(small.View())|
      {
        hide SlackAll, SetAll, Keyspace.FieldLengths;
        SetMore(pairs, i, old(small.View()));
        SlackMore(pairs, i, old(small.View()), old(small.Slack()));
        SizeAfter(small.View(), pairs[i].0, pairs[i].1);
        var new0 := small.Set(pairs[i].0, pairs[i].1);
        if new0 {
          added := added + 1;
        }
      }
      assert pairs[..|pairs|] == pairs;
    }

    /** `hashSetGeneral` */
    method SetGeneral(pairs: seq<Pair>) returns (added: int)
      modifies `general
      ensures general == SetAll(pairs, old(general)) && added == |general| - |old(general)|
    {
      added := 0;
      for i := 0 to |pairs|
        invariant general == SetAll(pairs[..i], old(general)) && added == |general| - |old(general)|
      {
        SetMore(pairs, i, old(general));
        SizeAfter(general, pairs[i].0, pairs[i].1);
        if pairs[i].0 !in general {
          added := added + 1;
        }
        general := general[pairs[i].0 := pairs[i].1];
      }
      assert pairs[..|pairs|] == pairs;
    }

    /** `upgradeCompactHash` */
    method Upgrade()
      requires Valid() && compact
      modifies this
      ensures Valid() && !compact && small == old(small) && general == old(View())
    {
      hide MapOf;
      var entries := small.All();
      general := FieldMap(entries);
      compact := false;
    }

    /** `hashDel` */
    method Del(fields: seq<Bytes>) returns (removed: int)
      requires Valid()
      modifies this, small
      ensures Valid() && small == old(small) && compact == old(compact)
      ensures View() == DropAll(old(View()), fields) && removed == |old(View())| - |View()|
      ensures Content() == LessFields(old(Content()), fields)
    {
      hide CompactHash.Valid, CompactHash.View, CompactHash.Slack, Small, LessFields, DropAll;
      removed := 0;
      LessNone(Content());
      LessDrops(Content(), fields);
      assert fields[..0] == [];
      for i := 0 to |fields|
        invariant Valid() && small == old(small) && compact == old(compact)
        invariant Content() == LessFields(old(Content()), fields[..i])
        invariant removed == |old(View())| - |View()|
      {
        LessMore(old(Content()), fields, i);
        SizeWithout(View(), fields[i]);
        var gone := DelOne(fields[i]);
        if gone {
          removed := removed + 1;
        }
      }
      assert fields[..|fields|] == fields;
    }

    method DelOne(field: Bytes) returns (gone: bool)
      requires Valid()
      modifies this, small
      ensures Valid() && small == old(small) && compact == old(compact)
      ensures gone == (field in old(View())) && View() == old(View()) - {field}
      ensures Content() == LessFields(old(Content()), [field])
    {
      hide CompactHash.Valid, CompactHash.View, CompactHash.Slack, Small, LessFields;
      LessOne(Content(), field);
      if compact {
        SmallWithout(View(), field);
        gone := small.Del(field);
      } else {
        gone := field in general;
        general := general - {field};
      }
    }

    /** `hashGet` */
    method Get(field: Bytes) returns (value: Option<Bytes>)
      requires Valid()
      ensures value == if field in View() then Some(View()[field]) else None
    {
      hide MapOf;
      if compact {
        value := small.Get(field);
      } else if field in general {
        value := Some(general[field]);
      } else {
        value := None;
      }
    }
  }

  /** `hashMapForPairs` */
  method FieldsOf(pairs: seq<Pair>) returns (fields: Fields, eligible: bool)
    ensures fields == SetAll(pairs, map[]) && (eligible <==> SmallPairs(pairs))
  {
    fields, eligible := map[], true;
    for i := 0 to |pairs|
      invariant fields == SetAll(pairs[..i], map[]) && (eligible <==> SmallPairs(pairs[..i]))
    {
      SetMore(pairs, i, map[]);
      assert pairs[..i + 1] == pairs[..i] + [pairs[i]];
      if |pairs[i].0| > HASH_MAX_STRING || |pairs[i].1| > HASH_MAX_STRING {
        assert pairs[i] in pairs[..i + 1];
        eligible := false;
      }
      fields := fields[pairs[i].0 := pairs[i].1];
    }
    assert pairs[..|pairs|] == pairs;
  }

  /** `newCompactHashFromMap`: a map is visited in no particular order. */
  method CompactFromMap(fields: Fields) returns (hash: CompactHash)
    ensures fresh(hash) && hash.Valid() && hash.View() == fields && hash.Slack() == 0
  {
    hide MapOf, Keyspace.FieldLengths, LeftOf, Laid, PairsOf, CompactHashes.Distinct;
    hash := new CompactHash();
    LeftAll(fields);
    var rest := fields;
    while rest != map[]
      invariant fresh(hash) && hash.Valid() && hash.Slack() == 0
      invariant LeftOf(rest, fields)
      invariant hash.View() == fields - rest.Keys
      decreases |rest|
    {
      var k :| k in rest;
      TakeOne(fields, rest, k);
      var added := hash.Set(k, rest[k]);
      rest := rest - {k};
    }
  }

  /** `compactHashGeneralMap` */
  method FieldMap(entries: seq<Pair>) returns (fields: Fields)
    ensures fields == MapOf(entries)
  {
    hide MapOf;
    fields := map[];
    MapOfNone();
    for i := 0 to |entries|
      invariant fields == MapOf(entries[..i])
    {
      assert entries[..i + 1] == entries[..i] + [(entries[i].0, entries[i].1)];
      MapOfMore(entries[..i], entries[i].0, entries[i].1);
      fields := fields[entries[i].0 := entries[i].1];
    }
    assert entries[..|entries|] == entries;
  }

  lemma MapOfNone()
    ensures MapOf([]) == map[]
  {
  }

  /** `added` are the new fields among the first `n` pairs, all of them short. */
  ghost predicate Projected(pairs: seq<Pair>, n: nat, view: Fields, added: set<Bytes>)
    requires n <= |pairs|
  {
    && added !! view.Keys
    && SetAll(pairs[..n], view).Keys == view.Keys + added
    && SmallPairs(pairs[..n])
  }

  lemma ProjectNone(pairs: seq<Pair>, view: Fields)
    ensures Projected(pairs, 0, view, {})
  {
  }

  lemma ProjectStep(pairs: seq<Pair>, i: nat, view: Fields, added: set<Bytes>)
    requires i < |pairs| && Projected(pairs, i, view, added)
    requires |pairs[i].0| <= HASH_MAX_STRING && |pairs[i].1| <= HASH_MAX_STRING
    ensures Projected(pairs, i + 1, view, if pairs[i].0 in view then added else added + {pairs[i].0})
    ensures pairs[i].0 in added ==> added + {pairs[i].0} == added
    ensures pairs[i].0 in added ==> pairs[i].0 !in view
  {
    SetMore(pairs, i, view);
    assert pairs[..i + 1] == pairs[..i] + [pairs[i]];
    hide SetAll;
  }

  lemma ProjectAll(pairs: seq<Pair>, view: Fields, added: set<Bytes>)
    requires Projected(pairs, |pairs|, view, added)
    ensures SmallPairs(pairs) && |SetAll(pairs, view)| == |view| + |added|
  {
    assert pairs[..|pairs|] == pairs;
    KeysSize(SetAll(pairs, view), view, added);
  }

  lemma KeysSize(m: Fields, view: Fields, added: set<Bytes>)
    requires m.Keys == view.Keys + added && added !! view.Keys
    ensures |m| == |view| + |added|
  {
    assert |m.Keys| == |view.Keys| + |added|;
  }

  lemma {:induction false} TooMany(pairs: seq<Pair>, n: nat, view: Fields, added: set<Bytes>)
    requires n <= |pairs| && Projected(pairs, n, view, added)
    requires |view| + |added| > HASH_MAX_ENTRIES
    ensures |SetAll(pairs, view)| > HASH_MAX_ENTRIES
  {
    SetKeys(pairs, view);
    SetKeys(pairs[..n], view);
    assert view.Keys + added <= SetAll(pairs, view).Keys;
    NoLarger(view.Keys + added, SetAll(pairs, view).Keys);
    assert |view.Keys + added| == |view.Keys| + |added|;
  }

  datatype Op = SetOp(pairs: seq<Pair>) | DelOp(fields: seq<Bytes>)

  /** What a plain map makes of a run, and the counts it reports. */
  ghost function Plain(ops: seq<Op>, start: Fields): (Fields, seq<int>) {
    if ops == [] then (start, [])
    else
      var n := |ops| - 1;
      var (m, counts) := Plain(ops[..n], start);
      var (t, count) := Step(ops[n], m);
      (t, counts + [count])
  }

  ghost function Step(op: Op, m: Fields): (Fields, int) {
    match op
    case SetOp(pairs) => (SetAll(pairs, m), |SetAll(pairs, m)| - |m|)
    case DelOp(fields) => (DropAll(m, fields), |m| - |DropAll(m, fields)|)
  }

  lemma PlainMore(ops: seq<Op>, i: nat, start: Fields)
    requires i < |ops|
    ensures Plain(ops[..i + 1], start) ==
            (Step(ops[i], Plain(ops[..i], start).0).0,
             Plain(ops[..i], start).1 + [Step(ops[i], Plain(ops[..i], start).0).1])
  {
    hide Step;
    assert ops[..i + 1][..i] == ops[..i];
  }

  method Apply(value: HashValue, op: Op) returns (count: int)
    requires value.Valid()
    modifies value, value.small
    ensures value.Valid() && value.small == old(value.small) && (value.View(), count) == Step(op, old(value.View()))
  {
    hide MapOf, SetAll, Laid, PairsOf, Distinct, Small;
    match op {
      case SetOp(pairs) => count := value.Set(pairs);
      case DelOp(fields) => count := value.Del(fields);
    }
  }

  /** Any run of HSET and HDEL gives the fields and counts of a plain map, compact or not. */
  method Run(value: HashValue, ops: seq<Op>) returns (counts: seq<int>)
    requires value.Valid()
    modifies value, value.small
    ensures value.Valid() && (value.View(), counts) == Plain(ops, old(value.View()))
  {
    hide MapOf, SetAll, Laid, PairsOf, Distinct, Small, Step, Plain;
    counts := [];
    PlainNone(value.View());
    assert ops[..0] == [];
    for i := 0 to |ops|
      invariant value.Valid() && value.small == old(value.small)
      invariant (value.View(), counts) == Plain(ops[..i], old(value.View()))
    {
      PlainMore(ops, i, old(value.View()));
      var count := Apply(value, ops[i]);
      counts := counts + [count];
    }
    assert ops[..|ops|] == ops;
  }

  lemma PlainNone(start: Fields)
    ensures Plain([], start) == (start, [])
  {
  }
}
