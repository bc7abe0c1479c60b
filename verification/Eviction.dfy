/**
 How the store picks a key to evict (`findStalestCandidateLocked` in
 internal/storage/memory.go): the stalest of a sample, or of a full scan when the
 sample yields none. The empty key stands for "no candidate".
 */
module Eviction {
  import opened Order
  import opened Keyspace
  import opened Sets

  const MAX_STAMP: int := 0x7fff_ffff_ffff_ffff

  /** The best candidate so far and its access stamp. */
  datatype Best = Best(key: Key, at: int)

  const NONE := Best([], MAX_STAMP)

  /** One pass over `keys`; `stamps` holds the keys that may be evicted. */
  function Pass(keys: seq<Key>, stamps: map<Key, int>, best: Best): Best {
    if keys == [] then best
    else
      var k := keys[|keys| - 1];
      var r := Pass(keys[..|keys| - 1], stamps, best);
      if k in stamps && stamps[k] < r.at then Best(k, stamps[k]) else r
  }

  function Pick(sample: seq<Key>, scan: seq<Key>, stamps: map<Key, int>): Key {
    var best := Pass(sample, stamps, NONE);
    if best.key != [] then best.key else Pass(scan, stamps, best).key
  }

  /** A pass ends with the stalest of what it saw, or with what it began with. */
  lemma {:induction false} PassStalest(keys: seq<Key>, stamps: map<Key, int>, best: Best)
    ensures var r := Pass(keys, stamps, best);
            && r.at <= best.at
            && (forall k | k in keys && k in stamps :: r.at <= stamps[k])
            && (r == best || (r.key in keys && r.key in stamps && r.at == stamps[r.key] && r.at < best.at))
  {
    if keys != [] {
      var k := keys[|keys| - 1];
      PassStalest(keys[..|keys| - 1], stamps, best);
      assert forall j | j in keys :: j == k || j in keys[..|keys| - 1];
    }
  }

  /** A candidate that no choice of sample and scan order can miss. */
  ghost predicate Certain(stamps: map<Key, int>, c: Key) {
    c in stamps && c != [] && stamps[c] < MAX_STAMP && ([] in stamps ==> stamps[c] < stamps[[]])
  }

  /** The key picked may be evicted, unless it is the empty key. */
  lemma PickEligible(sample: seq<Key>, scan: seq<Key>, stamps: map<Key, int>)
    ensures Pick(sample, scan, stamps) != [] ==> Pick(sample, scan, stamps) in stamps
  {
    PassStalest(sample, stamps, NONE);
    PassStalest(scan, stamps, Pass(sample, stamps, NONE));
  }

  /** A full scan finds something as long as some candidate is certain. */
  lemma PickFinds(sample: seq<Key>, scan: seq<Key>, stamps: map<Key, int>, c: Key)
    requires Certain(stamps, c) && c in scan
    ensures Pick(sample, scan, stamps) != []
  {
    var best := Pass(sample, stamps, NONE);
    PassStalest(sample, stamps, NONE);
    PassStalest(scan, stamps, best);
  }

  /** An order in which a scan may visit the stored keys. */
  ghost predicate Visits(scan: seq<Key>, stored: set<Key>) {
    forall k :: k in scan <==> k in stored
  }

  /** No key twice. */
  ghost predicate Distinct(keys: seq<Key>) {
    forall i, j | 0 <= i < j < |keys| :: keys[i] != keys[j]
  }

  /** Different stored keys, at most `n`. */
  ghost predicate Partial(sample: seq<Key>, n: int, stored: set<Key>) {
    && (forall k | k in sample :: k in stored)
    && Distinct(sample)
    && |sample| <= (if n <= 0 then 0 else n)
  }

  /** A sample the sampler can draw: `n` different stored keys, or all of them where there are no more. */
  ghost predicate Drawn(sample: seq<Key>, n: int, stored: set<Key>) {
    Partial(sample, n, stored) && (|sample| < n ==> Visits(sample, stored))
  }

  lemma {:induction false} DistinctSize(keys: seq<Key>)
    requires Distinct(keys)
    ensures |set k | k in keys| == |keys|
  {
    if keys != [] {
      var n := |keys| - 1;
      DistinctSize(keys[..n]);
      assert (set k | k in keys) == (set k | k in keys[..n]) + {keys[n]};
    }
  }

  /** Every set of keys can be visited in some order. */
  lemma {:induction false} Enumerate(keys: set<Key>) returns (scan: seq<Key>)
    ensures Visits(scan, keys)
  {
    scan := [];
    if k :| k in keys {
      scan := Enumerate(keys - {k});
      scan := scan + [k];
    }
  }

  /** Any number of different keys can be taken from a pool, a given one first. */
  lemma {:induction false} TakeFrom(pool: set<Key>, first: Key, n: nat) returns (sample: seq<Key>)
    requires first in pool && 0 < n <= |pool|
    ensures |sample| == n && sample[0] == first && Distinct(sample) && forall k | k in sample :: k in pool
  {
    if n == 1 {
      return [first];
    }
    sample := TakeFrom(pool, first, n - 1);
    var taken := set k | k in sample;
    DistinctSize(sample);
    if pool <= taken {
      NoLarger(pool, taken);
    }
    assert exists k :: k in pool && k !in taken;
    var k :| k in pool && k !in taken;
    sample := sample + [k];
  }

  function Least(n: int, size: nat): int {
    if n < size then n else size
  }

  /** A sample of the size the sampler gives, with a given key first and the others from a pool. */
  lemma SampleWith(stored: set<Key>, n: int, pool: set<Key>, first: Key) returns (sample: seq<Key>)
    requires n > 0 && first in pool && pool <= stored && Least(n, |stored|) <= |pool|
    ensures Drawn(sample, n, stored) && |sample| > 0 && sample[0] == first && forall k | k in sample :: k in pool
  {
    NoLarger({first}, stored);
    var size := Least(n, |stored|);
    sample := TakeFrom(pool, first, size);
    if size < n {
      DistinctSize(sample);
      NoLarger((set k | k in sample), stored);
      forall k ensures k in sample <==> k in stored {
        assert k in sample <==> k in set j | j in sample;
      }
    }
  }

  /** A sample is never smaller than it could be. */
  lemma DrawnSize(sample: seq<Key>, n: int, stored: set<Key>)
    requires n > 0 && Drawn(sample, n, stored)
    ensures |sample| >= Least(n, |stored|)
  {
    if |sample| < n {
      DistinctSize(sample);
      assert (set k | k in sample) == stored;
    }
  }

  /** The key looked at first wins a pass unless a strictly staler one follows. */
  lemma {:induction false} FirstOrStaler(keys: seq<Key>, stamps: map<Key, int>)
    requires keys != [] && keys[0] in stamps && stamps[keys[0]] < MAX_STAMP
    ensures var r := Pass(keys, stamps, NONE);
            r == Best(keys[0], stamps[keys[0]]) || r.at < stamps[keys[0]]
  {
    var n := |keys| - 1;
    if n == 0 {
      assert Pass(keys[..0], stamps, NONE) == NONE;
    } else {
      FirstOrStaler(keys[..n], stamps);
    }
  }

  /** The stored keys that are no candidates staler than `k`. */
  ghost function NotStaler(stored: set<Key>, stamps: map<Key, int>, k: Key): set<Key>
    requires k in stamps
  {
    set j | j in stored && (j in stamps ==> stamps[j] >= stamps[k])
  }

  /** Enough keys are no staler than `k` to fill a sample. */
  ghost predicate Pickable(stored: set<Key>, stamps: map<Key, int>, n: int, k: Key) {
    && k in stamps && k != [] && stamps[k] < MAX_STAMP
    && |NotStaler(stored, stamps, k)| >= Least(n, |stored|)
  }

  /** Some sample and some order of the scan make a search come up with `k`. */
  ghost predicate Picks(stored: set<Key>, stamps: map<Key, int>, n: int, k: Key) {
    exists sample, scan | Drawn(sample, n, stored) && Visits(scan, stored) :: k == Pick(sample, scan, stamps)
  }

  /** The keys a search can come up with: those no staler than which there are keys enough to fill a sample. */
  lemma PickableExactly(stored: set<Key>, stamps: map<Key, int>, n: int, k: Key)
    requires n > 0 && stamps.Keys <= stored && k != []
    ensures Picks(stored, stamps, n, k) <==> Pickable(stored, stamps, n, k)
  {
    if Picks(stored, stamps, n, k) {
      var sample, scan :| Drawn(sample, n, stored) && Visits(scan, stored) && k == Pick(sample, scan, stamps);
      PickedIsPickable(stored, stamps, n, sample, scan);
    }
    if Pickable(stored, stamps, n, k) {
      var sample := SampleWith(stored, n, NotStaler(stored, stamps, k), k);
      var scan := Enumerate(stored);
      PassStalest(sample, stamps, NONE);
      FirstOrStaler(sample, stamps);
      assert k == Pick(sample, scan, stamps);
    }
  }

  lemma PickedIsPickable(stored: set<Key>, stamps: map<Key, int>, n: int, sample: seq<Key>, scan: seq<Key>)
    requires n > 0 && stamps.Keys <= stored && Drawn(sample, n, stored) && Visits(scan, stored)
    requires Pick(sample, scan, stamps) != []
    ensures Pickable(stored, stamps, n, Pick(sample, scan, stamps))
  {
    var k, best := Pick(sample, scan, stamps), Pass(sample, stamps, NONE);
    PassStalest(sample, stamps, NONE);
    PassStalest(scan, stamps, best);
    var others := NotStaler(stored, stamps, k);
    if best.key != [] {
      DrawnSize(sample, n, stored);
      DistinctSize(sample);
      assert (set j | j in sample) <= others;
      NoLarger((set j | j in sample), others);
    } else {
      assert others == stored;
    }
  }

  /**
   Picking never gives up, whatever the sample and the order of the scan, exactly
   when some candidate is certain: with the empty key among the candidates, one that
   is strictly staler than it.
   */
  lemma PickExactly(stored: set<Key>, stamps: map<Key, int>, n: int)
    requires n > 0 && stamps.Keys <= stored
    ensures (exists c :: Certain(stamps, c)) <==> !Picks(stored, stamps, n, [])
  {
    if c :| Certain(stamps, c) {
      forall sample, scan | Drawn(sample, n, stored) && Visits(scan, stored)
        ensures Pick(sample, scan, stamps) != []
      {
        PickFinds(sample, scan, stamps, c);
      }
    } else {
      var sample, scan, k := EmptyFirst(stored, stamps, n);
      assert k == [] by {
        assert k != [] ==> Certain(stamps, k);
      }
    }
  }

  /**
   With the empty key at the head of the sample, if it is a candidate, a search gives up or finds a
   certain candidate.
   */
  lemma EmptyFirst(stored: set<Key>, stamps: map<Key, int>, n: int)
    returns (sample: seq<Key>, scan: seq<Key>, k: Key)
    requires n > 0 && stamps.Keys <= stored
    ensures Drawn(sample, n, stored) && Visits(scan, stored) && k == Pick(sample, scan, stamps)
    ensures k != [] ==> Certain(stamps, k)
  {
    scan := Enumerate(stored);
    if [] in stamps {
      sample := SampleWith(stored, n, stored, []);
      if stamps[[]] < MAX_STAMP {
        FirstOrStaler(sample, stamps);
      }
    } else if c :| c in stored {
      sample := SampleWith(stored, n, stored, c);
    } else {
      sample := [];
    }
    k := Pick(sample, scan, stamps);
    PassStalest(sample, stamps, NONE);
    PassStalest(scan, stamps, Pass(sample, stamps, NONE));
  }
}
