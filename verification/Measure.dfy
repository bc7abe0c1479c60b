/** Measuring a stored value (`approximateValueObjectSize` in internal/storage/memory.go). */
module Measuring {
  import opened Order
  import opened Keyspace
  import opened Streams

  method MeasureItems(items: seq<Bytes>) returns (n: nat)
    ensures n == Lengths(items)
  {
    n := 0;
    for i := 0 to |items|
      invariant n == Lengths(items[..i])
    {
      assert items[..i + 1][..i] == items[..i];
      n := n + |items[i]|;
    }
    assert items[..|items|] == items;
  }

  method MeasureRecords(entries: seq<StreamEntry>) returns (n: nat)
    ensures n == RecordLengths(entries)
  {
    n := 0;
    for i := 0 to |entries|
      invariant n == RecordLengths(entries[..i])
    {
      assert entries[..i + 1][..i] == entries[..i];
      var values := MeasureItems(entries[i].values);
      n := n + |IdText(entries[i].id)| + values;
    }
    assert entries[..|entries|] == entries;
  }

  method MeasureMembers(members: set<Bytes>) returns (n: nat)
    ensures n == MemberLengths(members)
  {
    n := 0;
    var rest := members;
    while rest != {}
      invariant n + MemberLengths(rest) == MemberLengths(members)
    {
      var m :| m in rest;
      MemberLengthsRemove(rest, m);
      n := n + |m|;
      rest := rest - {m};
    }
  }

  method MeasureFields(fields: map<Bytes, Bytes>) returns (n: nat)
    ensures n == FieldLengths(fields)
  {
    n := 0;
    var rest := fields;
    while rest.Keys != {}
      invariant n + FieldLengths(rest) == FieldLengths(fields)
      decreases |rest.Keys|
    {
      var f :| f in rest.Keys;
      FieldLengthsRemove(rest, f);
      n := n + |f| + |rest[f]|;
      rest := rest - {f};
    }
  }

  method Measure(key: Key, v: Stored) returns (n: nat)
    ensures n == Size(key, v)
  {
    hide Lengths, FieldLengths, MemberLengths, RecordLengths, BaseSize;
    var payload := 0;
    match v.payload {
      case Str(data) =>
        payload := |data|;
      case List(items) =>
        payload := MeasureItems(items);
        payload := 32 + |items| * 16 + payload;
      case Hash(fields) =>
        payload := MeasureFields(fields);
        payload := 32 + |fields| * 24 + payload;
      case CompactHash(fields, slack) =>
        payload := MeasureFields(fields);
        payload := 32 + |fields| * 24 + payload + slack;
      case Set(members) =>
        payload := MeasureMembers(members);
        payload := 32 + |members| * 16 + payload;
      case IntSet(values) =>
        payload := 32 + |values| * 8;
      case ZSet(scores) =>
        payload := MeasureMembers(scores.Keys);
        payload := 32 + |scores| * 24 + payload;
      case CompactZSet(scores) =>
        payload := MeasureMembers(scores.Keys);
        payload := 32 + |scores| * 24 + payload;
      case Stream(entries) =>
        payload := MeasureRecords(entries);
        payload := 32 + |entries| * 32 + payload;
    }
    n := BaseSize(key, v.expiresAt) + payload;
  }
}
