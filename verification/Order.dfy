/**
 Byte strings and the two orders the store relies on: the bytewise order of Go
 strings and the (score, member) order of sorted-set entries.
 */
module Order {
  import opened Splices

  type byte = x: int | 0 <= x < 256
  type Bytes = seq<byte>

  /** A sorted-set entry. Scores are exact; NaN and the infinities never reach the store. */
  datatype Entry = Entry(member: Bytes, score: real)

  /** Go's `<` on strings and `bytes.Compare(a, b) < 0`. */
  predicate LexLess(a: Bytes, b: Bytes) {
    if b == [] then false
    else if a == [] then true
    else if a[0] != b[0] then a[0] < b[0]
    else LexLess(a[1..], b[1..])
  }

  predicate EntryLess(a: Entry, b: Entry) {
    if a.score != b.score then a.score < b.score
    else LexLess(a.member, b.member)
  }

  /** The first byte that differs decides, and a string comes before those it begins. */
  lemma {:induction false} LexExactly(a: Bytes, b: Bytes)
    ensures LexLess(a, b) <==>
              exists k | 0 <= k <= |a| && k < |b| :: a[..k] == b[..k] && (k == |a| || a[k] < b[k])
  {
    if b == [] {
    } else if a == [] {
      assert a[..0] == b[..0];
    } else if a[0] != b[0] {
      if a[0] < b[0] {
        assert a[..0] == b[..0];
      }
      forall k | 1 <= k <= |a| && k < |b| ensures a[..k] != b[..k] {
        assert a[..k][0] != b[..k][0];
      }
    } else {
      LexExactly(a[1..], b[1..]);
      if k :| && 0 <= k <= |a[1..]| && k < |b[1..]| && a[1..][..k] == b[1..][..k]
              && (k == |a[1..]| || a[1..][k] < b[1..][k])
      {
        assert a[..k + 1] == [a[0]] + a[1..][..k] && b[..k + 1] == [b[0]] + b[1..][..k];
      }
      if k :| 0 <= k <= |a| && k < |b| && a[..k] == b[..k] && (k == |a| || a[k] < b[k]) {
        assert k > 0;
        assert a[1..][..k - 1] == a[..k][1..] && b[1..][..k - 1] == b[..k][1..];
      }
    }
  }

  /** The lower score comes first, and the lower member among equal scores. */
  lemma EntryExactly(a: Entry, b: Entry)
    ensures a.score < b.score ==> EntryLess(a, b) && !EntryLess(b, a)
    ensures a.score == b.score ==> (EntryLess(a, b) <==> LexLess(a.member, b.member))
  {
  }

  lemma {:induction false} LexTransitive(a: Bytes, b: Bytes, c: Bytes)
    requires LexLess(a, b) && LexLess(b, c)
    ensures LexLess(a, c)
  {
    if a != [] && a[0] == b[0] == c[0] {
      LexTransitive(a[1..], b[1..], c[1..]);
    }
  }

  /** Exactly one of less, equal and greater holds. */
  lemma {:induction false} LexTrichotomy(a: Bytes, b: Bytes)
    ensures !(LexLess(a, b) && LexLess(b, a))
    ensures a == b <==> !LexLess(a, b) && !LexLess(b, a)
  {
    if a != [] && b != [] {
      LexTrichotomy(a[1..], b[1..]);
      if a[0] == b[0] && a[1..] == b[1..] {
        assert a == [a[0]] + a[1..] && b == [b[0]] + b[1..];
      }
    }
  }

  lemma EntryTransitive(a: Entry, b: Entry, c: Entry)
    requires EntryLess(a, b) && EntryLess(b, c)
    ensures EntryLess(a, c)
  {
    if a.score == b.score == c.score {
      LexTransitive(a.member, b.member, c.member);
    }
  }

  lemma EntryTrichotomy(a: Entry, b: Entry)
    ensures !(EntryLess(a, b) && EntryLess(b, a))
    ensures a == b <==> !EntryLess(a, b) && !EntryLess(b, a)
  {
    LexTrichotomy(a.member, b.member);
  }

  /** Strictly ascending, hence free of duplicates. */
  ghost predicate Ascending(s: seq<Entry>) {
    forall i, j | 0 <= i < j < |s| :: EntryLess(s[i], s[j])
  }

  /** How many entries of `s` lie below `e`. */
  ghost function Below(s: seq<Entry>, e: Entry): (n: nat)
    ensures n <= |s|
  {
    if s == [] || !EntryLess(s[0], e) then 0 else 1 + Below(s[1..], e)
  }

  /** In an ascending sequence the entries below `e` are exactly a prefix. */
  lemma {:induction false} BelowIsPrefix(s: seq<Entry>, e: Entry)
    requires Ascending(s)
    ensures forall i | 0 <= i < |s| :: EntryLess(s[i], e) <==> i < Below(s, e)
  {
    if s != [] {
      if EntryLess(s[0], e) {
        BelowIsPrefix(s[1..], e);
        forall i | 0 <= i < |s| ensures EntryLess(s[i], e) <==> i < Below(s, e) {
          if i > 0 { assert s[i] == s[1..][i - 1]; }
        }
      } else {
        forall i | 0 <= i < |s| ensures !EntryLess(s[i], e) {
          if i > 0 && EntryLess(s[i], e) { EntryTransitive(s[0], s[i], e); }
        }
      }
    }
  }

  /** A present entry is the one right behind the entries below it. */
  lemma BelowFinds(s: seq<Entry>, e: Entry)
    requires Ascending(s)
    ensures e in s <==> Below(s, e) < |s| && s[Below(s, e)] == e
  {
    BelowIsPrefix(s, e);
    if e in s {
      var k :| 0 <= k < |s| && s[k] == e;
      EntryTrichotomy(e, e);
      assert forall i | 0 <= i < k :: EntryLess(s[i], s[k]);
    }
  }

  /** An absent entry goes behind the entries below it. */
  lemma InsertAscending(s: seq<Entry>, e: Entry)
    requires Ascending(s) && e !in s
    ensures Ascending(InsertAt(s, Below(s, e), e))
  {
    BelowIsPrefix(s, e);
    forall i | 0 <= i < |s| && i >= Below(s, e) ensures EntryLess(e, s[i]) {
      EntryTrichotomy(s[i], e);
    }
  }

  /** An ascending sequence is determined by the set of its entries. */
  lemma {:induction false} AscendingUnique(s: seq<Entry>, t: seq<Entry>)
    requires Ascending(s) && Ascending(t)
    requires forall e :: e in s <==> e in t
    ensures s == t
  {
    assert |s| > 0 ==> s[0] in s;
    assert |t| > 0 ==> t[0] in t;
    if s != [] && t != [] {
      HeadsAgree(s, t);
      forall e ensures e in s[1..] <==> e in t[1..] {
        TailMembership(s, e);
        TailMembership(t, e);
      }
      AscendingUnique(s[1..], t[1..]);
      assert s == [s[0]] + s[1..] && t == [t[0]] + t[1..];
    }
  }

  lemma HeadsAgree(s: seq<Entry>, t: seq<Entry>)
    requires Ascending(s) && Ascending(t) && s != [] && t != []
    requires forall e :: e in s <==> e in t
    ensures s[0] == t[0]
  {
    assert s[0] in t && t[0] in s;
    var i :| 0 <= i < |t| && t[i] == s[0];
    var j :| 0 <= j < |s| && s[j] == t[0];
    EntryTrichotomy(s[0], t[0]);
  }

  lemma TailMembership(s: seq<Entry>, e: Entry)
    requires Ascending(s) && s != []
    ensures e in s[1..] <==> e in s && e != s[0]
  {
    if e in s[1..] {
      var i :| 0 <= i < |s[1..]| && s[1..][i] == e;
      assert s[i + 1] == e;
      EntryTrichotomy(s[0], e);
    }
    assert s == [s[0]] + s[1..];
  }

  // ----- score ranges -----

  datatype Bound = NegInf | At(value: real) | PosInf

  /** A score interval; either bound may be infinite (internal/storage/types.go). */
  datatype ScoreRange = ScoreRange(min: Bound, max: Bound, minExclusive: bool, maxExclusive: bool) {
    predicate BelowMin(score: real) {
      match min
      case NegInf => false
      case At(v) => score < v || (minExclusive && score == v)
      case PosInf => true
    }

    predicate AboveMax(score: real) {
      match max
      case NegInf => true
      case At(v) => score > v || (maxExclusive && score == v)
      case PosInf => false
    }

    /** Between the two bounds, on a bound only where it is inclusive. */
    predicate Contains(score: real)
      ensures Contains(score) <==> !BelowMin(score) && !AboveMax(score)
    {
      && (min.NegInf? || (min.At? && if minExclusive then min.value < score else min.value <= score))
      && (max.PosInf? || (max.At? && if maxExclusive then score < max.value else score <= max.value))
    }
  }

  /** The entries whose score lies in the range, in order. */
  ghost function InRange(s: seq<Entry>, range: ScoreRange): seq<Entry> {
    if s == [] then []
    else (if range.Contains(s[0].score) then [s[0]] else []) + InRange(s[1..], range)
  }

  lemma {:induction false} InRangeAppend(s: seq<Entry>, t: seq<Entry>, range: ScoreRange)
    ensures InRange(s + t, range) == InRange(s, range) + InRange(t, range)
  {
    if s == [] {
      assert s + t == t;
    } else {
      assert (s + t)[1..] == s[1..] + t;
      InRangeAppend(s[1..], t, range);
    }
  }

  lemma {:induction false} InRangeNone(s: seq<Entry>, range: ScoreRange)
    requires forall i | 0 <= i < |s| :: !range.Contains(s[i].score)
    ensures InRange(s, range) == []
  {
    if s != [] { InRangeNone(s[1..], range); }
  }

  lemma {:induction false} InRangeAll(s: seq<Entry>, range: ScoreRange)
    requires forall i | 0 <= i < |s| :: range.Contains(s[i].score)
    ensures InRange(s, range) == s
  {
    if s != [] { InRangeAll(s[1..], range); }
  }

  lemma ScoresAscend(s: seq<Entry>, i: nat, j: nat)
    requires Ascending(s) && i <= j < |s|
    ensures s[i].score <= s[j].score
  {
  }

  /** A stretch that starts behind the entries below the range and ends before those above it. */
  lemma InRangeIsSlice(s: seq<Entry>, range: ScoreRange, lo: nat, hi: nat)
    requires Ascending(s) && lo <= hi <= |s|
    requires forall i | 0 <= i < lo :: range.BelowMin(s[i].score)
    requires forall i | lo <= i < hi :: range.Contains(s[i].score)
    requires hi < |s| ==> range.AboveMax(s[hi].score)
    ensures InRange(s, range) == s[lo..hi]
  {
    hide Ascending, InRange;
    var below, within, above := s[..lo], s[lo..hi], s[hi..];
    forall i | 0 <= i < |above| ensures !range.Contains(above[i].score) {
      ScoresAscend(s, hi, hi + i);
    }
    forall i | 0 <= i < |within| ensures range.Contains(within[i].score) {
      assert within[i] == s[lo + i];
    }
    assert s == below + (within + above);
    InRangeAppend(below, within + above, range);
    InRangeAppend(within, above, range);
    InRangeNone(below, range);
    InRangeAll(within, range);
    InRangeNone(above, range);
  }
}
