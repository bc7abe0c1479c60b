/**
 What a sorted set means, whatever its encoding: a map from member to score, and
 its one listing in (score, member) order.
 */
module ZSetSpec {
  import opened Order
  import opened Splices

  type Scores = map<Bytes, real>

  /** `s` is the listing of the sorted set `m`. */
  ghost predicate Lists(s: seq<Entry>, m: Scores) {
    && Ascending(s)
    && (forall e | e in s :: e.member in m && m[e.member] == e.score)
    && (forall k | k in m :: Entry(k, m[k]) in s)
  }

  /** A sorted set has only one listing, so every encoding answers alike. */
  lemma ListingUnique(s: seq<Entry>, t: seq<Entry>, m: Scores)
    requires Lists(s, m) && Lists(t, m)
    ensures s == t
  {
    forall e ensures e in s <==> e in t {
      if e in s { assert Entry(e.member, m[e.member]) in t; }
      if e in t { assert Entry(e.member, m[e.member]) in s; }
    }
    AscendingUnique(s, t);
  }

  lemma {:induction false} ListingLength(s: seq<Entry>, m: Scores)
    requires Lists(s, m)
    ensures |s| == |m|
  {
    if s == [] {
      assert forall k | k in m :: Entry(k, m[k]) in s;
      assert m.Keys == {};
    } else {
      RemoveListed(s, m, 0);
      ListingLength(s[1..], m - {s[0].member});
      assert RemoveAt(s, 0) == s[1..];
      assert m.Keys == (m - {s[0].member}).Keys + {s[0].member};
    }
  }

  lemma RemoveListed(s: seq<Entry>, m: Scores, d: nat)
    requires Lists(s, m) && d < |s|
    ensures Lists(RemoveAt(s, d), m - {s[d].member})
  {
    var s', m' := RemoveAt(s, d), m - {s[d].member};
    forall i | 0 <= i < |s| && i != d ensures s[i] != s[d] {
      EntryTrichotomy(s[i], s[d]);
    }
    forall e | e in s' ensures e.member in m' && m'[e.member] == e.score {
      RemoveMembers(s, d, e);
      assert s[d] in s;
    }
    forall k | k in m' ensures Entry(k, m'[k]) in s' {
      RemoveMembers(s, d, Entry(k, m[k]));
    }
  }

  lemma InsertListed(s: seq<Entry>, m: Scores, e: Entry)
    requires Lists(s, m) && e.member !in m
    ensures e !in s
    ensures Lists(InsertAt(s, Below(s, e), e), m[e.member := e.score])
  {
    var s', m' := InsertAt(s, Below(s, e), e), m[e.member := e.score];
    InsertAscending(s, e);
    forall x | x in s' ensures x.member in m' && m'[x.member] == x.score {
      InsertMembers(s, Below(s, e), e, x);
    }
    forall k | k in m' ensures Entry(k, m'[k]) in s' {
      InsertMembers(s, Below(s, e), e, Entry(k, m'[k]));
    }
  }

  /** `s` holds the pairs of `m` in some order. */
  ghost predicate Tabulates(s: seq<Entry>, m: Scores) {
    && (forall e | e in s :: e.member in m && m[e.member] == e.score)
    && (forall k | k in m :: Entry(k, m[k]) in s)
    && (forall i, j | 0 <= i < j < |s| :: s[i] != s[j])
  }

  lemma ListedIsTabulated(s: seq<Entry>, m: Scores)
    requires Lists(s, m)
    ensures Tabulates(s, m)
  {
    forall i, j | 0 <= i < j < |s| ensures s[i] != s[j] {
      EntryTrichotomy(s[i], s[j]);
    }
  }

  lemma Rescore(s: seq<Entry>, m: Scores, i: nat, score: real)
    requires Tabulates(s, m) && i < |s|
    ensures Tabulates(s[i := Entry(s[i].member, score)], m[s[i].member := score])
  {
    var e := s[i];
    assert e in s;
    var s', m' := s[i := Entry(e.member, score)], m[e.member := score];
    forall j | 0 <= j < |s| && j != i ensures s[j].member != e.member {
      assert s[j] in s;
    }
    forall x | x in s' ensures x.member in m' && m'[x.member] == x.score {
      var j :| 0 <= j < |s'| && s'[j] == x;
      assert j != i ==> s[j] in s;
    }
    forall k | k in m' ensures Entry(k, m'[k]) in s' {
      if k == e.member {
        assert s'[i] == Entry(k, m'[k]);
      } else {
        var j :| 0 <= j < |s| && s[j] == Entry(k, m[k]);
        assert s'[j] == s[j];
      }
    }
  }

  lemma Append(s: seq<Entry>, m: Scores, e: Entry)
    requires Tabulates(s, m) && e.member !in m
    ensures Tabulates(s + [e], m[e.member := e.score])
  {
    var s', m' := s + [e], m[e.member := e.score];
    assert e in s' && forall x :: x in s' <==> x in s || x == e;
    forall i, j | 0 <= i < j < |s'| ensures s'[i] != s'[j] {
      assert s[i] in s;
    }
  }

  /** A batch of ZADD pairs; a later pair for the same member wins. */
  function AddAll(m: Scores, batch: seq<Entry>): Scores {
    if batch == [] then m
    else AddAll(m, batch[..|batch| - 1])[batch[|batch| - 1].member := batch[|batch| - 1].score]
  }

  lemma AddAllNone(m: Scores, batch: seq<Entry>)
    ensures batch[..0] == [] && AddAll(m, batch[..0]) == m && Members(batch[..0]) == {}
  {
  }

  lemma AddAllStep(m: Scores, batch: seq<Entry>, i: nat)
    requires i < |batch|
    ensures AddAll(m, batch[..i + 1]) == AddAll(m, batch[..i])[batch[i].member := batch[i].score]
  {
    assert batch[..i + 1][..i] == batch[..i];
  }

  lemma {:induction false} AddAllConcat(m: Scores, a: seq<Entry>, b: seq<Entry>)
    ensures AddAll(m, a + b) == AddAll(AddAll(m, a), b)
  {
    if b == [] {
      assert a + b == a;
    } else {
      var n := |b| - 1;
      assert (a + b)[..|a| + n] == a + b[..n];
      AddAllConcat(m, a, b[..n]);
    }
  }

  /** All pairs of a run of batches, in order. */
  ghost function Flatten(batches: seq<seq<Entry>>): seq<Entry> {
    if batches == [] then [] else Flatten(batches[..|batches| - 1]) + batches[|batches| - 1]
  }

  /** The members of a batch. */
  ghost function Members(batch: seq<Entry>): set<Bytes> {
    set e | e in batch :: e.member
  }

  lemma {:induction false} AddAllKeys(m: Scores, batch: seq<Entry>)
    ensures AddAll(m, batch).Keys == m.Keys + Members(batch)
  {
    if batch != [] {
      var n := |batch| - 1;
      AddAllKeys(m, batch[..n]);
      assert batch == batch[..n] + [batch[n]];
      assert Members(batch) == Members(batch[..n]) + {batch[n].member};
    }
  }

  /** The answer to a rank query, both bounds inclusive. */
  ghost function RankSlice(s: seq<Entry>, start: int, stop: int): seq<Entry> {
    if start < 0 || stop < start || start >= |s| then []
    else s[start..if stop >= |s| then |s| else stop + 1]
  }

  /** Adding a listing entry by entry to an empty set gives the set it lists. */
  lemma AddAllListing(s: seq<Entry>, m: Scores)
    requires Lists(s, m)
    ensures AddAll(map[], s) == m
  {
    AddAllKeys(map[], s);
    AddAllValues(map[], s, m);
    assert forall k | k in m :: Entry(k, m[k]) in s;
    assert Members(s) == m.Keys;
  }

  lemma {:induction false} AddAllValues(m0: Scores, s: seq<Entry>, m: Scores)
    requires forall e | e in s :: e.member in m && m[e.member] == e.score
    requires forall k | k in m0 :: k in m && m[k] == m0[k]
    ensures forall k | k in AddAll(m0, s) :: k in m && m[k] == AddAll(m0, s)[k]
  {
    if s != [] { AddAllValues(m0, s[..|s| - 1], m); }
  }
}
