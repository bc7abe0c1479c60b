/** What the store's bookkeeping means: shards, counters, sweeps and sums as values. */
module StoreSpec {
  import opened Options
  import opened Order
  import opened Keyspace
  import opened Eviction
  import opened Payloads
  import HyperLogLogs
  import opened Sets
  import opened Changes
  import Decimal

  /** The shards hold `view`, each key in its home shard and nowhere else. */
  ghost predicate Parted(shards: seq<Shard>, view: Shard, home: Key -> nat) {
    && (forall i, k | 0 <= i < |shards| && k in shards[i] :: home(k) == i && k in view && shards[i][k] == view[k])
    && (forall k | k in view :: home(k) < |shards| && k in shards[home(k)])
  }

  /** One counter per kind, each the number of keys of that kind. */
  ghost predicate Counted(counts: seq<int>, view: Shard) {
    |counts| == |KINDS| && forall j | 0 <= j < |KINDS| :: counts[j] == Sum(view, OfKind(KINDS[j]))
  }

  function KindIndex(kind: Kind): (i: nat)
    ensures i < |KINDS| && KINDS[i] == kind
    ensures forall j | 0 <= j < |KINDS| && KINDS[j] == kind :: j == i
  {
    match kind
    case KString => 0
    case KList => 1
    case KHash => 2
    case KSet => 3
    case KZSet => 4
    case KStream => 5
  }

  function Bump(counts: seq<int>, kind: Kind, delta: int): (r: seq<int>)
    requires |counts| == |KINDS|
    ensures |r| == |counts|
  {
    counts[KindIndex(kind) := counts[KindIndex(kind)] + delta]
  }

  lemma CountedPut(counts: seq<int>, view: Shard, k: Key, v: Stored)
    requires Counted(counts, view)
    ensures |counts| == |KINDS|
    ensures k !in view ==> Counted(Bump(counts, KindOf(v), 1), view[k := v])
    ensures k in view && KindOf(view[k]) == KindOf(v) ==> Counted(counts, view[k := v])
    ensures k in view && KindOf(view[k]) != KindOf(v) ==>
              Counted(Bump(Bump(counts, KindOf(view[k]), -1), KindOf(v), 1), view[k := v])
  {
    hide KindOf;
    forall j | 0 <= j < |KINDS| {
      SumPut(view, OfKind(KINDS[j]), k, v);
    }
  }

  lemma CountedDrop(counts: seq<int>, view: Shard, k: Key)
    requires Counted(counts, view) && k in view
    ensures |counts| == |KINDS| && Counted(Bump(counts, KindOf(view[k]), -1), view - {k})
  {
    hide KindOf;
    forall j | 0 <= j < |KINDS| {
      SumRemove(view, OfKind(KINDS[j]), k);
    }
  }

  lemma PartedNone(shards: seq<Shard>, home: Key -> nat)
    requires forall i | 0 <= i < |shards| :: shards[i] == map[]
    ensures Parted(shards, map[], home)
  {
  }

  lemma PartedPut(shards: seq<Shard>, view: Shard, home: Key -> nat, k: Key, v: Stored)
    requires Parted(shards, view, home) && home(k) < |shards|
    ensures Parted(shards[home(k) := shards[home(k)][k := v]], view[k := v], home)
    ensures k in shards[home(k)] <==> k in view
    ensures k in view ==> shards[home(k)][k] == view[k]
  {
  }

  lemma PartedDrop(shards: seq<Shard>, view: Shard, home: Key -> nat, k: Key)
    requires Parted(shards, view, home) && home(k) < |shards|
    ensures Parted(shards[home(k) := shards[home(k)] - {k}], view - {k}, home)
    ensures k in shards[home(k)] <==> k in view
    ensures k in view ==> shards[home(k)][k] == view[k]
  {
  }

  /** What a sweep at `now` leaves. */
  ghost function Live(m: Shard, now: int): Shard {
    map k | k in m && !Expired(m[k], now) :: m[k]
  }

  /** The keys among `ks` that a sweep drops, and what it keeps of them. */
  ghost function Dead(m: Shard, ks: set<Key>, now: int): set<Key> {
    set k | k in ks && k in m && Expired(m[k], now)
  }

  ghost function Kept(m: Shard, ks: set<Key>, now: int): Shard {
    map k | k in ks && k in m && !Expired(m[k], now) :: m[k]
  }

  /** The shard `o` places on from a start, around. */
  function Turn(start: nat, o: nat, n: nat): (i: nat)
    requires n > 0
    ensures i < n
  {
    (start + o) % n
  }

  /** The keys at home in the first `n` shards. */
  ghost function Upto(m: Shard, home: Key -> nat, n: nat): set<Key> {
    set k | k in m && home(k) < n
  }

  lemma UptoNext(m: Shard, home: Key -> nat, i: nat, next: set<Key>)
    requires next == set k | k in m && home(k) == i
    ensures Upto(m, home, i) + next == Upto(m, home, i + 1) <= m.Keys && Upto(m, home, i) !! next
  {
  }

  /** How far a sweep of `m` has come that has seen `seen`. */
  ghost predicate SweptSoFar(m: Shard, seen: set<Key>, now: int, view: Shard, used: int, expired: seq<Key>) {
    && view == m - Dead(m, seen, now)
    && used == Sum(Kept(m, seen, now), AllSizes)
    && multiset(expired) == multiset(Dead(m, seen, now))
  }

  lemma SweepNone(m: Shard, now: int)
    ensures SweptSoFar(m, {}, now, m, 0, [])
  {
  }

  /** What has not been seen is still there. */
  lemma SweepUnseen(m: Shard, seen: set<Key>, now: int, view: Shard, used: int, expired: seq<Key>, k: Key)
    requires SweptSoFar(m, seen, now, view, used, expired) && k !in seen
    ensures k in view <==> k in m
    ensures k in m ==> view[k] == m[k]
  {
  }

  /** The next shard still holds all that it held. */
  lemma SweepNext(m: Shard, home: Key -> nat, i: nat, now: int, view: Shard, used: int, expired: seq<Key>,
                  next: set<Key>)
    requires SweptSoFar(m, Upto(m, home, i), now, view, used, expired)
    requires next == set k | k in view && home(k) == i
    ensures Upto(m, home, i) + next == Upto(m, home, i + 1) <= m.Keys && Upto(m, home, i) !! next
  {
    forall k | k !in Upto(m, home, i) {
      SweepUnseen(m, Upto(m, home, i), now, view, used, expired, k);
    }
  }

  lemma SweepDead(m: Shard, seen: set<Key>, now: int, view: Shard, used: int, expired: seq<Key>, k: Key)
    requires SweptSoFar(m, seen, now, view, used, expired)
    requires k in m && k !in seen && Expired(m[k], now)
    ensures SweptSoFar(m, seen + {k}, now, view - {k}, used, expired + [k])
  {
    assert Dead(m, seen + {k}, now) == Dead(m, seen, now) + {k};
    assert Kept(m, seen + {k}, now) == Kept(m, seen, now);
  }

  lemma SweepKept(m: Shard, seen: set<Key>, now: int, view: Shard, used: int, expired: seq<Key>, k: Key)
    requires SweptSoFar(m, seen, now, view, used, expired)
    requires k in m && k !in seen && !Expired(m[k], now)
    ensures SweptSoFar(m, seen + {k}, now, view, used + Size(k, m[k]), expired)
  {
    assert Dead(m, seen + {k}, now) == Dead(m, seen, now);
    assert Kept(m, seen + {k}, now) == Kept(m, seen, now)[k := m[k]];
    SumPut(Kept(m, seen, now), AllSizes, k, m[k]);
  }

  lemma SweepAll(m: Shard, now: int, view: Shard, used: int, expired: seq<Key>)
    requires SweptSoFar(m, m.Keys, now, view, used, expired)
    ensures view == Live(m, now) && used == Sum(view, AllSizes)
    ensures multiset(expired) == multiset(m.Keys - view.Keys)
  {
    assert Kept(m, m.Keys, now) == Live(m, now);
    assert Dead(m, m.Keys, now) == m.Keys - view.Keys;
  }

  /** The access stamps of the keys that may be evicted. */
  ghost function Stamps(m: Shard, protected: set<Key>): map<Key, int> {
    map k | k in m && k !in protected :: m[k].lastAccessed
  }

  lemma Moved(seen: set<Key>, rest: set<Key>, k: Key)
    requires k in rest && seen !! rest
    ensures (seen + {k}) + (rest - {k}) == seen + rest && seen + {k} !! rest - {k}
  {
  }

  /** The keys in `ks` only. */
  ghost function Only(m: Shard, ks: set<Key>): Shard {
    map k | k in m && k in ks :: m[k]
  }

  lemma OnlyNone(m: Shard, home: Key -> nat)
    ensures Only(m, Upto(m, home, 0)) == map[]
  {
  }

  lemma OnlyAll(shards: seq<Shard>, m: Shard, home: Key -> nat)
    requires Parted(shards, m, home)
    ensures Only(m, Upto(m, home, |shards|)) == m
  {
  }

  lemma OnlyMore(m: Shard, ks: set<Key>, k: Key)
    requires k in m
    ensures Only(m, ks + {k}) == Only(m, ks)[k := m[k]]
  {
  }

  lemma NotYet(m: Shard, ks: set<Key>, k: Key)
    requires k !in ks
    ensures k !in Only(m, ks)
  {
  }

  lemma CountedNone()
    ensures Counted([0, 0, 0, 0, 0, 0], map[])
  {
  }

  ghost function SumOf(m: Shard, ks: set<Key>, w: Weight): nat {
    Sum(Only(m, ks), w)
  }

  lemma SumOfNone(m: Shard, w: Weight)
    ensures SumOf(m, {}, w) == 0
  {
  }

  lemma SumOfMore(m: Shard, ks: set<Key>, w: Weight, k: Key)
    requires k in m && k !in ks
    ensures SumOf(m, ks + {k}, w) == SumOf(m, ks, w) + Weigh(w, k, m[k])
  {
    hide Weigh;
    SumPut(Only(m, ks), w, k, m[k]);
    OnlyMore(m, ks, k);
  }

  lemma SumOfAll(m: Shard, ks: set<Key>, w: Weight)
    requires m.Keys <= ks
    ensures SumOf(m, ks, w) == Sum(m, w)
  {
    assert Only(m, ks) == m;
  }

  lemma EvictableWeight(protected: set<Key>, k: Key, v: Stored)
    ensures Weigh(Evictable(protected), k, v) == if k in protected then 0 else Size(k, v)
  {
  }

  lemma SizeWeight(k: Key, v: Stored)
    ensures Weigh(AllSizes, k, v) == Size(k, v)
  {
  }

  // ----- what eviction can reach -----

  /** The stamp below which a candidate cannot be overlooked. */
  ghost function Moment(m: Shard, protected: set<Key>): int {
    if [] in m && [] !in protected && m[[]].lastAccessed < MAX_STAMP then m[[]].lastAccessed else MAX_STAMP
  }

  /** The memory of the candidates that cannot be overlooked. */
  ghost function Reach(m: Shard, protected: set<Key>): nat {
    Sum(m, Staler(protected, Moment(m, protected)))
  }

  /** As long as some of it is left, a candidate is found. */
  lemma ReachFinds(m: Shard, protected: set<Key>, sample: seq<Key>, scan: seq<Key>)
    requires Visits(scan, m.Keys) && Reach(m, protected) > 0
    ensures Pick(sample, scan, Stamps(m, protected)) != []
  {
    hide Sum, Size;
    var c := SumWitness(m, Staler(protected, Moment(m, protected)));
    PickFinds(sample, scan, Stamps(m, protected), c);
  }

  /** Dropping a candidate takes its whole size from what is evictable, and no more from what is in reach. */
  lemma ReachDrops(m: Shard, protected: set<Key>, k: Key)
    requires k in m && k !in protected && k != []
    ensures Sum(m - {k}, AllSizes) == Sum(m, AllSizes) - Size(k, m[k])
    ensures Sum(m - {k}, Evictable(protected)) == Sum(m, Evictable(protected)) - Size(k, m[k])
    ensures Reach(m - {k}, protected) >= Reach(m, protected) - Size(k, m[k])
  {
    hide Sum, Size;
    SumRemove(m, AllSizes, k);
    SumRemove(m, Evictable(protected), k);
    SumRemove(m, Staler(protected, Moment(m, protected)), k);
  }

  /** All that may be evicted is in reach when the empty key is not among it and no stamp is the greatest one. */
  lemma ReachAll(m: Shard, protected: set<Key>)
    requires [] in m ==> [] in protected
    requires forall k | k in m :: m[k].lastAccessed < MAX_STAMP
    ensures Reach(m, protected) == Sum(m, Evictable(protected))
  {
    hide Sum, Size;
    var staler := Staler(protected, MAX_STAMP);
    SumMonotone(m, staler, Evictable(protected));
    SumMonotone(m, Evictable(protected), staler);
  }

  /** What one search can come up with. */
  lemma PickCandidate(m: Shard, protected: set<Key>, sample: seq<Key>, scan: seq<Key>)
    requires Visits(scan, m.Keys)
    ensures var c := Pick(sample, scan, Stamps(m, protected));
            if c == [] then Reach(m, protected) == 0 else c in m && c !in protected
  {
    hide Reach, Pick;
    PickEligible(sample, scan, Stamps(m, protected));
    if Reach(m, protected) > 0 {
      ReachFinds(m, protected, sample, scan);
    }
  }

  /** `now` is `m` without the keys of `gone`, each there once, stored, not protected and not empty. */
  ghost predicate EvictedAll(m: Shard, protected: set<Key>, gone: seq<Key>, now: Shard) {
    && now == m - (set k | k in gone)
    && (forall k | k in gone :: k in m && k !in protected && k != [])
    && (forall i, j | 0 <= i < j < |gone| :: gone[i] != gone[j])
  }

  lemma EvictMore(m: Shard, protected: set<Key>, gone: seq<Key>, now: Shard, k: Key)
    requires EvictedAll(m, protected, gone, now)
    requires k in now && k !in protected && k != []
    ensures EvictedAll(m, protected, gone + [k], now - {k}) && k in m && m[k] == now[k]
  {
    assert (set j | j in gone + [k]) == (set j | j in gone) + {k};
  }

  /** How far an eviction down to `target` has come that began with `m` and now has `now`. */
  ghost predicate Evicting(m: Shard, protected: set<Key>, target: int, gone: seq<Key>, now: Shard) {
    var used := Sum(now, AllSizes);
    && EvictedAll(m, protected, gone, now)
    && used - Sum(now, Evictable(protected)) == Sum(m, AllSizes) - Sum(m, Evictable(protected))
    && (Sum(m, AllSizes) - Reach(m, protected) <= target ==> used - Reach(now, protected) <= target)
    && (gone != [] ==>
          var last := gone[|gone| - 1];
          last in m && used + Size(last, m[last]) > target)
  }

  lemma EvictNone(m: Shard, protected: set<Key>, target: int)
    ensures Evicting(m, protected, target, [], m)
  {
    hide Sum, Size, Reach;
    assert m - (set k | k in []) == m;
  }

  lemma EvictStep(m: Shard, protected: set<Key>, target: int, gone: seq<Key>, now: Shard, k: Key)
    requires Evicting(m, protected, target, gone, now) && Sum(now, AllSizes) > target
    requires k in now && k !in protected && k != []
    ensures Evicting(m, protected, target, gone + [k], now - {k})
  {
    hide Sum, Size, Reach, EvictedAll;
    EvictMore(m, protected, gone, now, k);
    ReachDrops(now, protected, k);
  }

  /** Some sample of `n` keys and some order of the scan make a search come up with `k`. */
  ghost predicate Chosen(m: Shard, protected: set<Key>, n: int, k: Key) {
    Picks(m.Keys, Stamps(m, protected), n, k)
  }

  /** Some run of searches gives up before `target` is met. */
  ghost predicate MayGiveUp(m: Shard, protected: set<Key>, target: int, n: int)
    decreases |m|
  {
    && Sum(m, AllSizes) > target
    && (Chosen(m, protected, n, []) || FirstDropped(m, protected, target, n))
  }

  /** Some run drops a key first and gives up later. */
  ghost predicate FirstDropped(m: Shard, protected: set<Key>, target: int, n: int)
    decreases |m|, 0
  {
    exists k | k in m && k != [] && Chosen(m, protected, n, k) :: MayGiveUp(m - {k}, protected, target, n)
  }

  /** What is left when all that is evictable is gone. */
  ghost function Floor(m: Shard, protected: set<Key>): int {
    Sum(m, AllSizes) - Sum(m, Evictable(protected))
  }

  /** Some run passes the test before an eviction, drops at least one key and gives up in the end. */
  ghost predicate MayLose(m: Shard, protected: set<Key>, target: int, n: int) {
    Floor(m, protected) <= target < Sum(m, AllSizes) && FirstDropped(m, protected, target, n)
  }

  /** Looking at the empty key first, a search ends with a key in reach or gives up. */
  lemma Overlooked(m: Shard, protected: set<Key>, n: int) returns (k: Key)
    requires n > 0
    ensures Chosen(m, protected, n, k)
    ensures k != [] ==> k in m && k !in protected && m[k].lastAccessed < Moment(m, protected)
  {
    var sample, scan;
    sample, scan, k := EmptyFirst(m.Keys, Stamps(m, protected), n);
  }

  lemma {:induction false} OutOfReach(m: Shard, protected: set<Key>, target: int, n: int)
    requires n > 0 && Sum(m, AllSizes) - Reach(m, protected) > target
    ensures MayGiveUp(m, protected, target, n)
    ensures Reach(m, protected) > 0 ==> FirstDropped(m, protected, target, n)
    decreases |m|
  {
    hide Sum, Size, Chosen;
    var k := Overlooked(m, protected, n);
    if k != [] {
      ReachDrops(m, protected, k);
      SumRemove(m, Staler(protected, Moment(m, protected)), k);
      OutOfReach(m - {k}, protected, target, n);
    } else {
      NothingChosen(m, protected, n);
    }
  }

  lemma {:induction false} WithinReach(m: Shard, protected: set<Key>, target: int, n: int)
    requires n > 0 && MayGiveUp(m, protected, target, n)
    ensures Sum(m, AllSizes) - Reach(m, protected) > target
    decreases |m|
  {
    hide Sum, Size, Reach, Chosen;
    if Chosen(m, protected, n, []) {
      NothingChosen(m, protected, n);
    } else {
      var k :| k in m && k != [] && Chosen(m, protected, n, k) && MayGiveUp(m - {k}, protected, target, n);
      ChosenExactly(m, protected, n, k);
      ReachDrops(m, protected, k);
      WithinReach(m - {k}, protected, target, n);
    }
  }

  /** Eviction may give up exactly when dropping everything in reach is not enough. */
  lemma MayGiveUpExactly(m: Shard, protected: set<Key>, target: int, n: int)
    requires n > 0
    ensures MayGiveUp(m, protected, target, n) <==> Sum(m, AllSizes) - Reach(m, protected) > target
  {
    hide Sum, Size, Reach, MayGiveUp, FirstDropped;
    if Sum(m, AllSizes) - Reach(m, protected) > target {
      OutOfReach(m, protected, target, n);
    }
    if MayGiveUp(m, protected, target, n) {
      WithinReach(m, protected, target, n);
    }
  }

  /** A key that a search can drop without meeting `target`. */
  ghost predicate Wasted(m: Shard, protected: set<Key>, target: int, n: int, k: Key) {
    k in m && Pickable(m.Keys, Stamps(m, protected), n, k) && Sum(m, AllSizes) - Size(k, m[k]) > target
  }

  /**
   Eviction may drop keys and give up all the same exactly when the test passes, dropping
   everything in reach is not enough, and there is something to drop: something in reach,
   or a key that a sample may hit on though an unlucky one would have missed it.
   */
  lemma MayLoseExactly(m: Shard, protected: set<Key>, target: int, n: int)
    requires n > 0
    ensures MayLose(m, protected, target, n) <==>
              && Floor(m, protected) <= target < Sum(m, AllSizes) - Reach(m, protected)
              && (Reach(m, protected) > 0 || exists k :: Wasted(m, protected, target, n, k))
  {
    hide Sum, Size, Reach, MayGiveUp, Chosen, NotStaler, Stamps;
    if FirstDropped(m, protected, target, n) {
      var k :| k in m && k != [] && Chosen(m, protected, n, k) && MayGiveUp(m - {k}, protected, target, n);
      ChosenExactly(m, protected, n, k);
      ReachDrops(m, protected, k);
      WithinReach(m - {k}, protected, target, n);
      assert Reach(m, protected) == 0 ==> Wasted(m, protected, target, n, k);
    }
    if Sum(m, AllSizes) - Reach(m, protected) > target {
      OutOfReach(m, protected, target, n);
      if k :| Reach(m, protected) == 0 && Wasted(m, protected, target, n, k) {
        ChosenExactly(m, protected, n, k);
        ReachDrops(m, protected, k);
        OutOfReachStays(m, protected, k);
        OutOfReach(m - {k}, protected, target, n);
      }
    }
  }

  lemma OutOfReachStays(m: Shard, protected: set<Key>, k: Key)
    requires Reach(m, protected) == 0 && k in m && k != []
    ensures Reach(m - {k}, protected) == 0
  {
    hide Sum, Size;
    SumRemove(m, Staler(protected, Moment(m, protected)), k);
  }

  lemma NothingChosen(m: Shard, protected: set<Key>, n: int)
    requires Chosen(m, protected, n, [])
    ensures Reach(m, protected) == 0
  {
    hide Reach, Pick, Drawn;
    var sample, scan :|
      Drawn(sample, n, m.Keys) && Visits(scan, m.Keys) && [] == Pick(sample, scan, Stamps(m, protected));
    PickCandidate(m, protected, sample, scan);
  }

  /** A search may come up with a key exactly when enough keys to fill a sample are no staler. */
  lemma ChosenExactly(m: Shard, protected: set<Key>, n: int, k: Key)
    requires n > 0 && k != []
    ensures Chosen(m, protected, n, k) <==> Pickable(m.Keys, Stamps(m, protected), n, k)
    ensures Chosen(m, protected, n, k) ==> k in m && k !in protected
  {
    PickableExactly(m.Keys, Stamps(m, protected), n, k);
  }

  /** The keys of `gone` were found one after the other, each while there was too much. */
  ghost predicate Found(m: Shard, protected: set<Key>, target: int, n: int, gone: seq<Key>) {
    gone == [] ||
    var last, before := gone[|gone| - 1], gone[..|gone| - 1];
    var then0 := m - (set k | k in before);
    && Found(m, protected, target, n, before)
    && Sum(then0, AllSizes) > target && last in then0 && last != [] && Chosen(then0, protected, n, last)
  }

  lemma FoundNone(m: Shard, protected: set<Key>, target: int, n: int)
    ensures Found(m, protected, target, n, [])
  {
  }

  lemma FoundMore(m: Shard, protected: set<Key>, target: int, n: int, gone: seq<Key>, now: Shard, k: Key)
    requires Found(m, protected, target, n, gone) && now == m - (set j | j in gone)
    requires Sum(now, AllSizes) > target && k in now && k != [] && Chosen(now, protected, n, k)
    ensures Found(m, protected, target, n, gone + [k])
  {
    hide Sum, Chosen;
    assert (gone + [k])[..|gone|] == gone;
  }

  // ----- the stalest go first -----

  /** The keys that are protected or were accessed no earlier than `k`. */
  ghost function NoEarlier(m: Shard, protected: set<Key>, k: Key): set<Key>
    requires k in m
  {
    set j | j in m && (j in protected || m[k].lastAccessed <= m[j].lastAccessed)
  }

  /** An unprotected key than which a whole sample's worth of keys are no staler. */
  ghost predicate Stale(m: Shard, protected: set<Key>, n: int, k: Key) {
    k in m && k !in protected && |NoEarlier(m, protected, k)| >= Least(n, |m|)
  }

  /** Each key was stale when its turn came, with those before it gone. */
  ghost predicate InTurn(m: Shard, protected: set<Key>, n: int, gone: seq<Key>) {
    forall i | 0 <= i < |gone| :: Stale(m - (set k | k in gone[..i]), protected, n, gone[i])
  }

  lemma ChosenIsStale(m: Shard, protected: set<Key>, n: int, k: Key)
    requires n > 0 && k != [] && Chosen(m, protected, n, k)
    ensures Stale(m, protected, n, k) && k in m && k !in protected
  {
    hide Chosen;
    ChosenExactly(m, protected, n, k);
    assert NotStaler(m.Keys, Stamps(m, protected), k) == NoEarlier(m, protected, k);
    assert |m.Keys| == |m|;
  }

  lemma InTurnNone(m: Shard, protected: set<Key>, n: int)
    ensures InTurn(m, protected, n, [])
  {
  }

  lemma OneInTurn(m: Shard, protected: set<Key>, n: int, k: Key)
    requires Stale(m, protected, n, k)
    ensures InTurn(m, protected, n, [k])
  {
    hide Stale;
    assert [k][..0] == [];
    assert m - (set j | j in [k][..0]) == m;
  }

  lemma InTurnMore(m: Shard, protected: set<Key>, n: int, gone: seq<Key>, now: Shard, k: Key)
    requires InTurn(m, protected, n, gone) && now == m - (set j | j in gone) && Stale(now, protected, n, k)
    ensures InTurn(m, protected, n, gone + [k])
  {
    hide Stale;
    var more := gone + [k];
    forall i | 0 <= i < |more| ensures Stale(m - (set j | j in more[..i]), protected, n, more[i]) {
      if i < |gone| {
        assert more[..i] == gone[..i];
      } else {
        assert more[..i] == gone;
      }
    }
  }

  /** Where the sample covers everything, an eviction takes the stalest that is not protected. */
  lemma StalestOfFew(m: Shard, protected: set<Key>, n: int, k: Key)
    requires |m| <= n
    ensures Stale(m, protected, n, k) <==>
              k in m && k !in protected
              && forall j | j in m && j !in protected :: m[k].lastAccessed <= m[j].lastAccessed
  {
    if k in m && k !in protected {
      var fewer := NoEarlier(m, protected, k);
      assert fewer <= m.Keys && |m.Keys| == |m|;
      if |fewer| >= |m| {
        NoLarger(fewer, m.Keys);
      } else {
        assert fewer != m.Keys;
      }
    }
  }

  /** Then nothing that is left and not protected was accessed earlier than anything evicted. */
  lemma LeftIsLater(m: Shard, protected: set<Key>, n: int, gone: seq<Key>, now: Shard, k: Key, j: Key)
    requires InTurn(m, protected, n, gone) && now == m - (set i | i in gone) && |m| <= n
    requires k in gone && j in now && j !in protected
    ensures k in m && m[k].lastAccessed <= m[j].lastAccessed
  {
    hide Stale;
    var i :| 0 <= i < |gone| && gone[i] == k;
    var then0 := m - (set l | l in gone[..i]);
    assert forall l | l in gone[..i] :: l in gone;
    NoLarger(then0.Keys, m.Keys);
    assert |then0| == |then0.Keys| && |m| == |m.Keys|;
    StalestOfFew(then0, protected, n, k);
  }

  lemma PickChosen(m: Shard, protected: set<Key>, n: int, sample: seq<Key>, scan: seq<Key>)
    requires Drawn(sample, n, m.Keys) && Visits(scan, m.Keys)
    ensures Chosen(m, protected, n, Pick(sample, scan, Stamps(m, protected)))
  {
    hide Drawn, Visits, Pick, Stamps;
  }

  lemma EvictedLeaves(m: Shard, protected: set<Key>, target: int, gone: seq<Key>, now: Shard)
    requires Evicting(m, protected, target, gone, now)
    ensures now == m - (set k | k in gone)
  {
    hide Sum, Size, Reach;
  }

  /** A run that gives up after dropping something is one that may lose keys. */
  lemma FoundLoses(m: Shard, protected: set<Key>, target: int, n: int, gone: seq<Key>, now: Shard)
    requires Found(m, protected, target, n, gone) && now == m - (set j | j in gone)
    requires Sum(now, AllSizes) > target && Chosen(now, protected, n, [])
    ensures gone != [] && Floor(m, protected) <= target ==> MayLose(m, protected, target, n)
  {
    hide Sum, Chosen;
    FoundGivesUp(m, protected, target, n, gone, now);
  }

  lemma {:induction false} FoundGivesUp(m: Shard, protected: set<Key>, target: int, n: int, gone: seq<Key>, now: Shard)
    requires Found(m, protected, target, n, gone) && now == m - (set j | j in gone)
    requires MayGiveUp(now, protected, target, n)
    ensures gone != [] ==> Sum(m, AllSizes) > target && FirstDropped(m, protected, target, n)
    decreases |gone|
  {
    hide Sum, Chosen;
    if gone != [] {
      var last, before := gone[|gone| - 1], gone[..|gone| - 1];
      var then0 := m - (set k | k in before);
      assert gone == before + [last];
      assert (set k | k in gone) == (set k | k in before) + {last};
      assert now == then0 - {last};
      if before == [] {
        assert then0 == m;
      } else {
        FoundGivesUp(m, protected, target, n, before, then0);
      }
    }
  }

  /** A run that may give up can be followed to its end. */
  lemma {:induction false} Followed(m: Shard, protected: set<Key>, target: int, n: int, gone: seq<Key>, now: Shard)
    returns (all: seq<Key>, end: Shard)
    requires n > 0 && Evicting(m, protected, target, gone, now) && MayGiveUp(now, protected, target, n)
    requires InTurn(m, protected, n, gone)
    ensures Evicting(m, protected, target, all, end) && InTurn(m, protected, n, all) && |all| >= |gone|
    ensures Sum(end, AllSizes) > target && Reach(end, protected) == 0
    decreases |now|
  {
    hide Sum, Size, Reach, Chosen, Evicting, InTurn;
    if Chosen(now, protected, n, []) {
      NothingChosen(now, protected, n);
      return gone, now;
    }
    var k :| k in now && k != [] && Chosen(now, protected, n, k) && MayGiveUp(now - {k}, protected, target, n);
    ChosenIsStale(now, protected, n, k);
    EvictedLeaves(m, protected, target, gone, now);
    InTurnMore(m, protected, n, gone, now, k);
    EvictStep(m, protected, target, gone, now, k);
    all, end := Followed(m, protected, target, n, gone + [k], now - {k});
  }

  lemma SumNone(w: Weight)
    ensures Sum(map[], w) == 0
  {
  }

  // ----- making room -----

  /** What making room in `m` down to `target` comes to: `gone` was dropped, `now` is left. */
  ghost predicate Freed(m: Shard, protected: set<Key>, target: int, n: int, gone: seq<Key>, now: Shard, ok: bool) {
    && Evicting(m, protected, target, gone, now) && InTurn(m, protected, n, gone)
    && (ok <==> Sum(now, AllSizes) <= target)
    && (Floor(m, protected) > target ==> gone == [])
    && (!ok ==> Floor(m, protected) > target || Reach(now, protected) == 0)
    && (!ok && gone != [] ==> MayLose(m, protected, target, n))
  }

  /** Every run that may lose keys is one way of making room. */
  lemma LossFreed(m: Shard, protected: set<Key>, target: int, n: int) returns (gone: seq<Key>, now: Shard)
    requires n > 0 && MayLose(m, protected, target, n)
    ensures gone != [] && Freed(m, protected, target, n, gone, now, false)
  {
    hide Sum, Size, Reach, Chosen, Evicting, MayGiveUp, Stale;
    EvictNone(m, protected, target);
    var k :| k in m && k != [] && Chosen(m, protected, n, k) && MayGiveUp(m - {k}, protected, target, n);
    ChosenIsStale(m, protected, n, k);
    assert m - (set j | j in []) == m;
    InTurnMore(m, protected, n, [], m, k);
    EvictStep(m, protected, target, [], m, k);
    gone, now := Followed(m, protected, target, n, [] + [k], m - {k});
  }

  lemma FreedLeaves(m: Shard, protected: set<Key>, target: int, n: int, gone: seq<Key>, now: Shard, ok: bool)
    requires Freed(m, protected, target, n, gone, now, ok)
    ensures now == m - (set k | k in gone)
    ensures ok <==> Sum(now, AllSizes) <= target
    ensures forall k | k in protected :: k in now <==> k in m
  {
  }

  lemma EvictableBound(m: Shard, protected: set<Key>)
    ensures Sum(m, Evictable(protected)) <= Sum(m, AllSizes)
  {
    hide Sum, Size;
    SumMonotone(m, Evictable(protected), AllSizes);
  }

  lemma AllEvictable(m: Shard)
    ensures Sum(m, Evictable({})) == Sum(m, AllSizes)
  {
    hide Sum, Size;
    SumMonotone(m, AllSizes, Evictable({}));
    SumMonotone(m, Evictable({}), AllSizes);
  }

  /** Room is found if dropping what is in reach is enough, and only if dropping all that is evictable is. */
  lemma FreedBounds(m: Shard, protected: set<Key>, target: int, n: int, gone: seq<Key>, now: Shard, ok: bool)
    requires Freed(m, protected, target, n, gone, now, ok)
    ensures ok ==> Sum(m, AllSizes) - Sum(m, Evictable(protected)) <= target
    ensures Sum(m, AllSizes) - Reach(m, protected) <= target ==> ok
    ensures forall k | k in m && k in protected :: k in now && now[k] == m[k]
  {
    hide Sum, Size;
    SumMonotone(m, Staler(protected, Moment(m, protected)), Evictable(protected));
  }

  /**
   Where all that is evictable is in reach, room is found exactly when there is enough, and a refusal
   drops nothing.
   */
  lemma FreedExactly(m: Shard, protected: set<Key>, target: int, n: int, gone: seq<Key>, now: Shard, ok: bool)
    requires Freed(m, protected, target, n, gone, now, ok)
    requires [] in m ==> [] in protected
    requires forall k | k in m :: m[k].lastAccessed < MAX_STAMP
    ensures ok <==> Sum(m, AllSizes) - Sum(m, Evictable(protected)) <= target
    ensures !ok ==> now == m
  {
    hide Sum, Size, Reach;
    ReachAll(m, protected);
    FreedBounds(m, protected, target, n, gone, now, ok);
    assert m - {} == m;
  }

  // ----- one write of one key -----

  /** The value a write at `now` finds under `key`. */
  ghost function Current(m: Shard, key: Key, now: int): Option<Stored> {
    if key in m && !Expired(m[key], now) then Some(m[key]) else None
  }

  /** The keyspace after that look, which reclaims an expired value. */
  ghost function Prepared(m: Shard, key: Key, now: int): Shard {
    if key in m && Expired(m[key], now) then m - {key} else m
  }

  ghost function OldSize(key: Key, v: Option<Stored>): nat {
    match v
    case None => 0
    case Some(s) => Size(key, s)
  }

  /** The value found at the first clock reading is out of date at the second. */
  predicate Lapses(current: Option<Stored>, now: int) {
    current.Some? && Expired(current.value, now)
  }

  /**
   What the running total falls short by after a write that found it `short`: a write
   that grows measures the keyspace anew, but misses the size of a value that was live
   when the write found it and swept away when the write made room.
   */
  ghost function ShortAfter(key: Key, current: Option<Stored>, value: Stored, now: int, ok: bool, short: int): int {
    if Size(key, value) <= OldSize(key, current) then short
    else if ok && Lapses(current, now) then OldSize(key, current)
    else 0
  }

  /** A write that makes a value longer which goes out of date before it makes room. */
  ghost predicate Drifts(key: Key, current: Option<Stored>, value: Stored, now: int) {
    Size(key, value) > OldSize(key, current) && Lapses(current, now)
  }

  /** What was exact stays so exactly when such a write does not go through; what was too low never gets too high. */
  lemma ShortExactly(key: Key, current: Option<Stored>, value: Stored, now: int, ok: bool, short: int)
    ensures short == 0 ==>
              (ShortAfter(key, current, value, now, ok, short) == 0 <==> !(ok && Drifts(key, current, value, now)))
    ensures short >= 0 ==> ShortAfter(key, current, value, now, ok, short) >= 0
    ensures !Lapses(current, now) ==> ShortAfter(key, current, value, now, ok, short) in {0, short}
  {
    hide Size;
  }

  /**
   A write of `value` under `key`, where the write found `current` in `m`, made room
   at `now` within `limit`, and left `after`.
   */
  ghost predicate Written(m: Shard, key: Key, current: Option<Stored>, value: Stored, now: int, limit: int, n: int,
                          gone: seq<Key>, after: Shard, ok: bool) {
    var delta := Size(key, value) - OldSize(key, current);
    if limit <= 0 || delta <= 0 then ok && gone == [] && after == m[key := value]
    else
      var left := Live(m, now) - (set k | k in gone);
      && Freed(Live(m, now), {key}, limit - delta, n, gone, left, ok)
      && after == if ok then left[key := value] else left
  }

  lemma PlainlyWritten(m: Shard, key: Key, current: Option<Stored>, value: Stored, now: int, limit: int, n: int)
    requires limit <= 0
    ensures Written(m, key, current, value, now, limit, n, [], m[key := value], true)
  {
  }

  /** A write that goes through stores its value and touches no other key but those it reports and those out of date. */
  lemma WrittenStores(m: Shard, key: Key, current: Option<Stored>, value: Stored, now: int, limit: int, n: int,
                      gone: seq<Key>, after: Shard)
    requires Written(m, key, current, value, now, limit, n, gone, after, true)
    ensures key in after && after[key] == value && key !in gone
    ensures forall k | k in after && k != key :: k in m && after[k] == m[k]
    ensures forall k | k in m && k !in after :: k in gone || Expired(m[k], now)
    ensures forall k | k in gone :: k in m && k !in after && !Expired(m[k], now)
  {
    hide Sum, Size, Reach;
  }

  /** Of few keys a write evicts the stalest: what it leaves was accessed no earlier than what it took. */
  lemma WriteTakesStalest(m: Shard, key: Key, current: Option<Stored>, value: Stored, now: int, limit: int, n: int,
                          gone: seq<Key>, after: Shard, ok: bool, k: Key, j: Key)
    requires Written(m, key, current, value, now, limit, n, gone, after, ok) && |Live(m, now)| <= n
    requires k in gone && j in after && j != key
    ensures k in m && j in m && m[k].lastAccessed <= m[j].lastAccessed
  {
    hide Sum, Size, Reach, MayLose, InTurn, Evicting;
    LeftIsLater(Live(m, now), {key}, n, gone, Live(m, now) - (set i | i in gone), k, j);
  }

  /**
   What a write that is refused leaves: what is not out of date, unless eviction dropped
   keys and gave up. That it may do so then is part of `Freed`: `Stores.Store.EvictUntil`
   proves it of the loop, and `MayLoseExactly` says when that is.
   */
  lemma RefusedKeeps(m: Shard, key: Key, current: Option<Stored>, value: Stored, now: int, limit: int, n: int,
                     gone: seq<Key>, after: Shard)
    requires Written(m, key, current, value, now, limit, n, gone, after, false)
    ensures after == Live(m, now) || MayLose(Live(m, now), {key}, limit - (Size(key, value) - OldSize(key, current)), n)
    ensures after == Live(m, now) <==> gone == []
    ensures Sum(after, AllSizes) + Size(key, value) - OldSize(key, current) > limit
  {
    hide Sum, Size, Reach, MayLose, InTurn;
    if gone == [] {
      assert after == Live(m, now);
    } else {
      assert gone[0] in gone && gone[0] in Live(m, now) && gone[0] !in after;
    }
  }

  /** A write that is no larger than the limit goes through when nothing else is left. */
  lemma RoomInNone(m: Shard, key: Key, current: Option<Stored>, value: Stored, now: int, limit: int, n: int,
                   gone: seq<Key>, after: Shard, ok: bool)
    requires Written(m, key, current, value, now, limit, n, gone, after, ok) && Live(m, now) == map[]
    requires OldSize(key, current) < Size(key, value) <= limit
    ensures ok && after == map[key := value]
  {
    hide Size, Reach, MayLose;
    SumNone(AllSizes);
    var left := Live(m, now) - (set k | k in gone);
    assert left == map[];
  }

  /** The room a write leaves for everything else. */
  ghost function Room(key: Key, current: Option<Stored>, value: Stored, limit: int): int {
    limit - (Size(key, value) - OldSize(key, current))
  }

  /**
   A refused write never costs a live key, whatever the samples, exactly when eviction may
   not lose keys. One half rests on `Freed`, like `RefusedKeeps`; the other shows a run of
   the eviction that loses keys wherever it may.
   */
  lemma RefusedExactly(m: Shard, key: Key, current: Option<Stored>, value: Stored, now: int, limit: int, n: int)
    requires n > 0 && limit > 0 && Size(key, value) > OldSize(key, current)
    ensures (forall gone, after | Written(m, key, current, value, now, limit, n, gone, after, false) ::
               after == Live(m, now))
            <==> !MayLose(Live(m, now), {key}, Room(key, current, value, limit), n)
  {
    hide Sum, Size, MayLose, Live, InTurn;
    var target := Room(key, current, value, limit);
    forall gone, after | Written(m, key, current, value, now, limit, n, gone, after, false)
      ensures after == Live(m, now) || MayLose(Live(m, now), {key}, target, n)
    {
      RefusedKeeps(m, key, current, value, now, limit, n, gone, after);
    }
    if MayLose(Live(m, now), {key}, target, n) {
      var gone, left := LossFreed(Live(m, now), {key}, target, n);
      assert left == Live(m, now) - (set k | k in gone) by {
        hide Freed;
        FreedLeaves(Live(m, now), {key}, target, n, gone, left, false);
      }
      assert Written(m, key, current, value, now, limit, n, gone, left, false);
      RefusedKeeps(m, key, current, value, now, limit, n, gone, left);
    }
  }

  /** Three empty strings, the empty key the second stalest. */
  const BLOCKED: Shard := map[[99] := Stored(Str([]), 0, 1), [] := Stored(Str([]), 0, 2), [97] := Stored(Str([]), 0, 3)]

  /**
   The test before an eviction compares with all that is evictable, so it passes where
   eviction gives up at the empty key: this write is refused when the stalest key is
   gone already.
   */
  lemma EmptyKeyBlocks(n: int)
    requires n > 0
    ensures
      var value := Stored(Str([]), 0, 10);
      var limit := Size([98], value);
      && Floor(Live(BLOCKED, 10), {[98]}) <= Room([98], None, value, limit)
      && MayLose(Live(BLOCKED, 10), {[98]}, Room([98], None, value, limit), n)
      && Written(BLOCKED, [98], None, value, 10, limit, n, [[99]], Live(BLOCKED, 10) - {[99]}, false)
  {
    BlockedSums();
    BlockedReach();
    assert Live(BLOCKED, 10) == BLOCKED;
    BlockedStale(n);
    hide Stale, InTurn;
    LostAlone(BLOCKED, [98], Stored(Str([]), 0, 10), 10, Size([98], Stored(Str([]), 0, 10)), n, [99]);
  }

  /** A refused write that costs the one key in reach. */
  lemma LostAlone(m: Shard, key: Key, value: Stored, now: int, limit: int, n: int, k: Key)
    requires n > 0 && limit > 0 && Live(m, now) == m && k in m && k != key && k != []
    requires Floor(m, {key}) <= Room(key, None, value, limit) < Sum(m - {k}, AllSizes)
    requires Sum(m, AllSizes) - Reach(m, {key}) > Room(key, None, value, limit)
    requires Reach(m, {key}) > 0 && Reach(m - {k}, {key}) == 0 && Stale(m, {key}, n, k)
    ensures MayLose(Live(m, now), {key}, Room(key, None, value, limit), n)
    ensures Written(m, key, None, value, now, limit, n, [k], Live(m, now) - {k}, false)
  {
    hide Sum, Size, MayLose, Evicting, Live, Reach, Stale, InTurn;
    var target := Room(key, None, value, limit);
    MayLoseExactly(m, {key}, target, n);
    EvictNone(m, {key}, target);
    EvictStep(m, {key}, target, [], m, k);
    OneInTurn(m, {key}, n, k);
    assert [] + [k] == [k];
    assert (set j | j in [k]) == {k};
  }

  lemma BlockedStale(n: int)
    ensures Stale(BLOCKED, {[98]}, n, [99])
  {
    assert NoEarlier(BLOCKED, {[98]}, [99]) == BLOCKED.Keys && |BLOCKED.Keys| == |BLOCKED|;
  }

  lemma BlockedSums()
    ensures Sum(BLOCKED, AllSizes) == Sum(BLOCKED, Evictable({[98]})) == 146
    ensures Sum(BLOCKED - {[99]}, AllSizes) == 97
  {
    hide Sum;
    ThreeSums(BLOCKED, AllSizes);
    ThreeSums(BLOCKED, Evictable({[98]}));
  }

  lemma BlockedReach()
    ensures Reach(BLOCKED, {[98]}) == 49 && Reach(BLOCKED - {[99]}, {[98]}) == 0
  {
    hide Sum;
    ThreeSums(BLOCKED, Staler({[98]}, 2));
    assert Moment(BLOCKED, {[98]}) == Moment(BLOCKED - {[99]}, {[98]}) == 2;
  }

  lemma ThreeSums(m: Shard, w: Weight)
    requires m.Keys == {[99], [], [97]}
    ensures Sum(m - {[99]}, w) == Weigh(w, [], m[[]]) + Weigh(w, [97], m[[97]])
    ensures Sum(m, w) == Weigh(w, [99], m[[99]]) + Weigh(w, [], m[[]]) + Weigh(w, [97], m[[97]])
  {
    hide Weigh;
    SumRemove(m, w, [99]);
    SumRemove(m - {[99]}, w, []);
    SumRemove(m - {[99]} - {[]}, w, [97]);
    assert m - {[99]} - {[]} - {[97]} == map[];
    SumNone(w);
  }

  /** What a write does that makes its value from the one it finds (`writeKey`). */
  ghost predicate WrittenBy(m: Shard, key: Key, make: Option<Stored> -> Outcome<Stored>, first: int, second: int,
                            limit: int, n: int, outcome: Outcome<Stored>, gone: seq<Key>, after: Shard) {
    var current := Current(m, key, first);
    match make(current)
    case Done(value) =>
      && Written(Prepared(m, key, first), key, current, value, second, limit, n, gone, after, outcome.Done?)
      && outcome == if outcome.Done? then Done(value) else OutOfMemory
    case refused => outcome == refused && gone == [] && after == Prepared(m, key, first)
  }

  /** What INCR answers for the value it finds, in terms of the numbers that strings read as. */
  ghost predicate Raised(before: Option<Stored>, outcome: Outcome<Stored>) {
    match before
    case None => outcome.OutOfMemory? || (outcome.Done? && ReadsAs(outcome.value, 1) && outcome.value.expiresAt == 0)
    case Some(v) =>
      if !v.payload.Str? then outcome == WrongType
      else if !Raisable(v) then outcome == NotInteger
      else
        || outcome.OutOfMemory?
        || (&& outcome.Done? && outcome.value.expiresAt == v.expiresAt
            && ReadsAs(outcome.value, Decimal.ParseInt(v.payload.data).value + 1))
  }

  /** INCR ends with one more than it found, unless there is no room for it; then the number stays. */
  lemma IncrRaises(m: Shard, key: Key, stamp: int, first: Instant, second: int, limit: int, n: int,
                   outcome: Outcome<Stored>, gone: seq<Key>, after: Shard)
    requires WrittenBy(m, key, c => Make(Incr, first, stamp, c), first, second, limit, n, outcome, gone, after)
    ensures Raised(Current(m, key, first), outcome)
    ensures outcome.Done? ==> key in after && after[key] == outcome.value
    ensures outcome.OutOfMemory? ==> limit > 0
    ensures outcome.OutOfMemory? && key in m && m[key].expiresAt <= 0 ==> key in after && after[key] == m[key]
    ensures outcome.OutOfMemory? && key !in m ==> key !in after
  {
    hide Make, ReadsAs, Raisable, Sum, Size, Reach, MayLose, InTurn;
    IncrMakes(first, stamp, Current(m, key, first));
  }

  /** PFADD on a value that is there goes through without making room: the value keeps its size. */
  lemma PfAddInPlace(m: Shard, key: Key, sums: seq<HyperLogLogs.Hash>, stamp: int, first: Instant, second: int,
                     limit: int, n: int, outcome: Outcome<Stored>, gone: seq<Key>, after: Shard)
    requires WrittenBy(m, key, c => Make(PfAdd(sums), first, stamp, c), first, second, limit, n, outcome, gone, after)
    requires
      var current := Current(m, key, first);
      current.Some? && Make(PfAdd(sums), first, stamp, current).Done?
    ensures outcome.Done? && gone == [] && after == m[key := outcome.value]
  {
    hide HyperLogLogs.Added, HyperLogLogs.Parse, Freed;
    var data := m[key].payload.data;
    assert HyperLogLogs.Parse(data).Some? by { HyperLogLogs.AddedOnly(data, sums); }
    HyperLogLogs.AddedParses(data, sums);
  }

  /** The access time has no part in a value's size or kind. */
  lemma TouchedSize(m: Shard, key: Key, stamp: int)
    requires key in m
    ensures Sum(m[key := m[key].(lastAccessed := stamp)], AllSizes) == Sum(m, AllSizes)
    ensures KindOf(m[key].(lastAccessed := stamp)) == KindOf(m[key])
  {
    hide Sum;
    SumPut(m, AllSizes, key, m[key].(lastAccessed := stamp));
  }

  /**
   What a read leaves: a live value it can serve touched, one that has expired dropped if the second
   reading agrees.
   */
  ghost function ReadFrom(m: Shard, key: Key, serves: Payload -> bool, first: int, second: int): Shard {
    if key !in m then m
    else if !Expired(m[key], first) then
      if serves(m[key].payload) then m[key := m[key].(lastAccessed := first)] else m
    else if Expired(m[key], second) then m - {key}
    else m
  }

  // ----- lists -----

  /** What pushing `values` one after the other makes of a list. */
  ghost function Pushed(list: seq<Bytes>, values: seq<Bytes>, left: bool): seq<Bytes>
    decreases |values|
  {
    if values == [] then list
    else Pushed(if left then [values[0]] + list else list + [values[0]], values[1..], left)
  }

  /** What popping `n` values one after the other takes from a list, and leaves. */
  ghost function Popped(list: seq<Bytes>, n: nat, left: bool): (seq<Bytes>, seq<Bytes>)
    requires n <= |list|
  {
    if n == 0 then ([], list)
    else if left then
      var (items, rest) := Popped(list[1..], n - 1, left);
      ([list[0]] + items, rest)
    else
      var (items, rest) := Popped(list[..|list| - 1], n - 1, left);
      ([list[|list| - 1]] + items, rest)
  }

  /** One list is the other backwards. */
  ghost predicate Backward(a: seq<Bytes>, b: seq<Bytes>) {
    |a| == |b| && forall i | 0 <= i < |a| :: a[i] == b[|b| - 1 - i]
  }

  lemma {:induction false} PushedRight(list: seq<Bytes>, values: seq<Bytes>)
    ensures Pushed(list, values, false) == list + values
    decreases |values|
  {
    if values == [] {
      assert list + values == list;
    } else {
      PushedRight(list + [values[0]], values[1..]);
      assert list + [values[0]] + values[1..] == list + values;
    }
  }

  lemma {:induction false} PushedLeft(list: seq<Bytes>, values: seq<Bytes>, back: seq<Bytes>)
    requires Backward(back, values)
    ensures Pushed(list, values, true) == back + list
    decreases |values|
  {
    if values == [] {
      assert back + list == list;
    } else {
      var n := |values|;
      assert Backward(back[..n - 1], values[1..]);
      PushedLeft([values[0]] + list, values[1..], back[..n - 1]);
      assert back == back[..n - 1] + [values[0]];
      assert back[..n - 1] + ([values[0]] + list) == back[..n - 1] + [values[0]] + list;
    }
  }

  lemma {:induction false} PoppedLeft(items: seq<Bytes>, rest: seq<Bytes>)
    ensures Popped(items + rest, |items|, true) == (items, rest)
    decreases |items|
  {
    if items == [] {
      assert items + rest == rest;
    } else {
      PoppedLeft(items[1..], rest);
      assert (items + rest)[1..] == items[1..] + rest;
      assert items == [items[0]] + items[1..];
    }
  }

  lemma {:induction false} PoppedRight(rest: seq<Bytes>, tail: seq<Bytes>, items: seq<Bytes>)
    requires Backward(items, tail)
    ensures Popped(rest + tail, |items|, false) == (items, rest)
    decreases |items|
  {
    if items == [] {
      assert rest + tail == rest;
    } else {
      var n := |tail| - 1;
      assert Backward(items[1..], tail[..n]);
      PoppedRight(rest, tail[..n], items[1..]);
      assert (rest + tail)[..|rest| + n] == rest + tail[..n];
      assert items == [items[0]] + items[1..];
    }
  }

  /** Popping as many values as were pushed at that end gives them back last first, and restores the list. */
  lemma PushThenPop(list: seq<Bytes>, values: seq<Bytes>, left: bool, items: seq<Bytes>)
    requires Backward(items, values)
    ensures |Pushed(list, values, left)| == |list| + |values|
    ensures Popped(Pushed(list, values, left), |values|, left) == (items, list)
  {
    hide Popped, Pushed;
    if left {
      PushedLeft(list, values, items);
      PoppedLeft(items, list);
    } else {
      PushedRight(list, values);
      PoppedRight(list, values, items);
    }
  }

  /** The value a push leaves, if what it finds is a list or nothing. */
  ghost function PushedValue(current: Option<Stored>, values: seq<Bytes>, left: bool, stamp: int): Stored {
    if current.Some? && current.value.payload.List?
    then Stored(List(Pushed(current.value.payload.items, values, left)), current.value.expiresAt, stamp)
    else Stored(List(Pushed([], values, left)), 0, stamp)
  }

  /** What `pushList` does to the keyspace. */
  ghost predicate PushedInto(m: Shard, key: Key, values: seq<Bytes>, left: bool, stamp: int, first: int, second: int,
                             limit: int, n: int, length: Outcome<int>, gone: seq<Key>, after: Shard) {
    var current := Current(m, key, first);
    if current.Some? && !current.value.payload.List? then length == WrongType && after == Prepared(m, key, first)
    else
      var value := PushedValue(current, values, left, stamp);
      && Written(Prepared(m, key, first), key, current, value, second, limit, n, gone, after, length.Done?)
      && length == if length.Done? then Done(|value.payload.items|) else OutOfMemory
  }

  /** What `popN` does to the keyspace: it checks the deadline at `first` and leaves the access time `second`. */
  ghost predicate PoppedFrom(m: Shard, key: Key, count: int, left: bool, first: int, second: int,
                             outcome: Outcome<seq<Bytes>>, after: Shard) {
    var p := Prepared(m, key, first);
    if count < 0 then outcome == Syntax && after == m
    else match Current(m, key, first)
      case None => outcome == Absent && after == p
      case Some(v) =>
        if !v.payload.List? then outcome == WrongType && after == p
        else if v.payload.items == [] then outcome == Absent && after == p - {key}
        else
          var n := if count < |v.payload.items| then count else |v.payload.items|;
          var (items, rest) := Popped(v.payload.items, n, left);
          && outcome == Done(items)
          && after == if rest == [] then p - {key} else p[key := v.(payload := List(rest), lastAccessed := second)]
  }

  /** A pop from the left takes the first `n` values and leaves the others. */
  lemma {:induction false} PoppedFromLeft(list: seq<Bytes>, n: nat)
    requires n <= |list|
    ensures Popped(list, n, true) == (list[..n], list[n..])
    decreases n
  {
    if n > 0 {
      PoppedFromLeft(list[1..], n - 1);
      assert list[..n] == [list[0]] + list[1..][..n - 1] && list[n..] == list[1..][n - 1..];
    }
  }

  /** One from the right takes the last, nearest first. */
  lemma {:induction false} PoppedFromRight(list: seq<Bytes>, n: nat)
    requires n <= |list|
    ensures
      var (items, rest) := Popped(list, n, false);
      rest == list[..|list| - n] && Backward(items, list[|list| - n..])
    decreases n
  {
    if n > 0 {
      var front := list[..|list| - 1];
      PoppedFromRight(front, n - 1);
      assert front[..|front| - (n - 1)] == list[..|list| - n];
      assert list[|list| - n..] == front[|front| - (n - 1)..] + [list[|list| - 1]];
    }
  }

  /** The answer of a pop and what it leaves of the list make up the list. */
  ghost predicate PopTakes(list: seq<Bytes>, count: int, left: bool, items: seq<Bytes>, rest: seq<Bytes>) {
    var n := if count < |list| then count else |list|;
    && 0 <= n
    && (left ==> items == list[..n] && rest == list[n..])
    && (!left ==> rest == list[..|list| - n] && Backward(items, list[|list| - n..]))
  }

  /** A pop that is answered with values took them from a live list, which keeps the rest or is gone. */
  lemma PopAnswers(m: Shard, key: Key, count: int, left: bool, first: int, second: int, outcome: Outcome<seq<Bytes>>,
                   after: Shard)
    requires PoppedFrom(m, key, count, left, first, second, outcome, after)
    ensures outcome.Done? <==>
              count >= 0 &&
              var v := Current(m, key, first); v.Some? && v.value.payload.List? && v.value.payload.items != []
    ensures outcome.Done? ==>
              PopTakes(m[key].payload.items, count, left, outcome.value,
                if key in after then after[key].payload.items else [])
    ensures outcome.Done? && key in after ==> after[key].payload.items != [] && after[key].expiresAt == m[key].expiresAt
    ensures outcome.Done? ==> forall k | k != key :: k in after <==> k in m
    ensures outcome.Done? ==> forall k | k in after && k != key :: after[k] == m[k]
  {
    hide Popped, Backward;
    if outcome.Done? {
      var items := m[key].payload.items;
      var n := if count < |items| then count else |items|;
      PoppedFromLeft(items, n);
      PoppedFromRight(items, n);
    }
  }

  // ----- hashes and sets -----

  function Cardinality(p: Payload): nat
    requires IsHash(p) || IsSet(p)
  {
    match p
    case Hash(m) => |m|
    case CompactHash(m, _) => |m|
    case Set(s) => |s|
    case IntSet(values) => |values|
  }

  /** What HDEL and SREM take away. */
  datatype Taking = TakeFields(fields: seq<Bytes>) | TakeMembers(members: seq<Bytes>)

  function Asked(t: Taking): seq<Bytes> {
    match t
    case TakeFields(fields) => fields
    case TakeMembers(members) => members
  }

  predicate Suits(t: Taking, p: Payload) {
    if t.TakeFields? then IsHash(p) else IsSet(p)
  }

  function Less(t: Taking, p: Payload): (r: Payload)
    requires Suits(t, p)
    ensures Suits(t, r)
  {
    match t
    case TakeFields(fields) => LessFields(p, fields)
    case TakeMembers(members) => LessMembers(p, members)
  }

  lemma SuitsCounts(t: Taking, p: Payload)
    requires Suits(t, p)
    ensures IsHash(p) || IsSet(p)
  {
  }

  lemma KindKept(v: Stored, t: Taking, stamp: int)
    requires Suits(t, v.payload)
    ensures KindOf(v.(payload := Less(t, v.payload), lastAccessed := stamp)) == KindOf(v)
  {
    hide Less;
  }

  /** What they do to the keyspace: the key goes with the last field or member. */
  ghost predicate TakenFrom(m: Shard, key: Key, t: Taking, first: int, second: int, outcome: Outcome<int>,
                            after: Shard) {
    var p := Prepared(m, key, first);
    match Current(m, key, first)
    case None => outcome == Done(0) && after == p
    case Some(v) =>
      if !Suits(t, v.payload) then outcome == WrongType && after == p
      else
        var rest := Less(t, v.payload);
        && outcome == Done(Cardinality(v.payload) - Cardinality(rest))
        && after == if Cardinality(rest) == 0 then p - {key} else p[key := v.(payload := rest, lastAccessed := second)]
  }

  // ----- the background sweep -----

  ghost function First(keys: seq<Key>, n: nat): set<Key>
    requires n <= |keys|
  {
    set k | k in keys[..n]
  }

  /** How far a sweep of `m` over the sampled `keys` has come that has seen the first `n`. */
  ghost predicate Sampled(m: Shard, keys: seq<Key>, n: nat, now: int, view: Shard, expired: seq<Key>)
    requires n <= |keys|
  {
    && view == m - (set k | k in expired)
    && multiset(expired) == multiset(Dead(m, First(keys, n), now))
  }

  lemma SampledNone(m: Shard, keys: seq<Key>, now: int)
    ensures Sampled(m, keys, 0, now, m, [])
  {
  }

  /** The next key is dropped if it is still there and out of date. */
  lemma SampledMore(m: Shard, keys: seq<Key>, i: nat, now: int, view: Shard, expired: seq<Key>)
    requires i < |keys| && Sampled(m, keys, i, now, view, expired)
    ensures
      if keys[i] in view && Expired(view[keys[i]], now)
      then Sampled(m, keys, i + 1, now, view - {keys[i]}, expired + [keys[i]])
      else Sampled(m, keys, i + 1, now, view, expired)
  {
    var k := keys[i];
    assert keys[..i + 1] == keys[..i] + [k];
    assert k in expired <==> k in multiset(expired);
    if k in view && Expired(view[k], now) {
      assert Dead(m, First(keys, i + 1), now) == Dead(m, First(keys, i), now) + {k};
      assert (set j | j in expired + [k]) == (set j | j in expired) + {k};
    } else {
      assert Dead(m, First(keys, i + 1), now) == Dead(m, First(keys, i), now);
    }
  }

  // ----- several keys deleted -----

  /** `keys` are gone, and those of them that were live are reported, each once. */
  ghost predicate Deleted(m: Shard, keys: set<Key>, now: int, view: Shard, removed: seq<Key>) {
    view == m - keys && multiset(removed) == multiset(set k | k in keys && k in Live(m, now))
  }

  lemma DeletedNone(m: Shard, now: int)
    ensures Deleted(m, {}, now, m, [])
  {
    assert m - {} == m;
  }

  lemma DeletedMore(m: Shard, keys: set<Key>, now: int, view: Shard, removed: seq<Key>, k: Key)
    requires Deleted(m, keys, now, view, removed)
    ensures
      var live := k in view && !Expired(view[k], now);
      Deleted(m, keys + {k}, now, view - {k}, if live then removed + [k] else removed)
  {
    var before := set j | j in keys && j in Live(m, now);
    var after := set j | j in keys + {k} && j in Live(m, now);
    if k in view && !Expired(view[k], now) {
      assert after == before + {k};
    } else {
      assert after == before;
    }
  }

  lemma DeletedLeaves(m: Shard, keys: set<Key>, now: int, view: Shard, removed: seq<Key>)
    requires Deleted(m, keys, now, view, removed)
    ensures view == m - keys
  {
  }

  lemma DeletedSound(m: Shard, keys: set<Key>, now: int, view: Shard, removed: seq<Key>)
    requires Deleted(m, keys, now, view, removed) && AllSound(m)
    ensures AllSound(view)
  {
    hide Sound;
  }

  // ----- runs -----

  /** An operation on the store, with its clock readings. */
  datatype Op =
    | SetOp(key: Key, data: Bytes, expiresAt: Decimal.int64, stamp: int, first: Instant, second: int)
    | PushOp(key: Key, values: seq<Bytes>, left: bool, stamp: int, first: Instant, second: int)
    | WriteOp(key: Key, change: Change, stamp: int, first: Instant, second: int)
    | ReadOp(key: Key, serves: Payload -> bool, first: Instant, second: int)
    | PopOp(key: Key, count: int, left: bool, first: Instant, second: int)
    | TakeOp(key: Key, what: Taking, first: Instant, second: int)
    | DeleteOp(key: Key, now: int)
    | DeleteManyOp(keys: seq<Key>, now: int)
    | SweepOp(keys: seq<Key>, now: int)
    | EnforceOp(now: int)
    | ConfigureOp(limit: int, sample: int, now: int)
    | ReplaceOp(now: int)

  const DEFAULT_SAMPLE_SIZE := 20

  /** What a store holds and the limits it works under. */
  datatype Memory = Memory(view: Shard, limit: int, sample: int)

  /** What an operation leaves of the keyspace `m`, under the limits of `a`. */
  ghost predicate Effect(op: Op, a: Memory, after: Shard) {
    var m := a.view;
    match op
    case SetOp(key, data, expiresAt, stamp, first, second) =>
      exists gone, ok ::
        Written(Prepared(m, key, first), key, Current(m, key, first), Stored(Str(data), expiresAt, stamp), second,
          a.limit, a.sample, gone, after, ok)
    case PushOp(key, values, left, stamp, first, second) =>
      if values == [] then after == m
      else
        exists length, gone ::
          PushedInto(m, key, values, left, stamp, first, second, a.limit, a.sample, length, gone, after)
    case WriteOp(key, change, stamp, first, second) => WriteEffect(key, change, stamp, first, second, a, after)
    case ReadOp(key, serves, first, second) => after == ReadFrom(m, key, serves, first, second)
    case PopOp(key, count, left, first, second) =>
      exists outcome :: PoppedFrom(m, key, count, left, first, second, outcome, after)
    case TakeOp(key, what, first, second) =>
      if Asked(what) == [] then after == m
      else exists outcome :: TakenFrom(m, key, what, first, second, outcome, after)
    case DeleteOp(key, _) => after == m - {key}
    case DeleteManyOp(keys, _) => after == m - (set k | k in keys)
    case SweepOp(keys, now) => exists expired :: Sampled(m, keys, |keys|, now, after, expired)
    case EnforceOp(now) =>
      if a.limit <= 0 then after == m
      else exists gone, ok :: Freed(Live(m, now), {}, a.limit, a.sample, gone, after, ok)
    case ConfigureOp(limit, _, now) => after == if limit > 0 then Live(m, now) else m
    case ReplaceOp(_) => false
  }

  ghost predicate WriteEffect(key: Key, change: Change, stamp: int, first: Instant, second: int, a: Memory,
                               after: Shard) {
    if !Checked(change).Done? then after == a.view
    else
      exists outcome, gone ::
        ChangedBy(a.view, key, change, stamp, first, second, a.limit, a.sample, outcome, gone, after)
  }

  ghost predicate ChangedBy(m: Shard, key: Key, change: Change, stamp: int, first: Instant, second: int, limit: int,
                            n: int, outcome: Outcome<Stored>, gone: seq<Key>, after: Shard)
    requires Checked(change).Done?
  {
    WrittenBy(m, key, c => Make(change, first, stamp, c), first, second, limit, n, outcome, gone, after)
  }

  /** One step of a store, with what a replacement would take over. */
  ghost predicate StepsTo(op: Op, other: Shard, a: Memory, b: Memory) {
    match op
    case ConfigureOp(limit, sample, _) =>
      && Effect(op, a, b.view)
      && b.limit == (if limit < 0 then 0 else limit)
      && b.sample == (if sample <= 0 then DEFAULT_SAMPLE_SIZE else sample)
    case ReplaceOp(now) => b == a.(view := if a.limit > 0 then Live(other, now) else other)
    case _ => Effect(op, a, b.view) && b.limit == a.limit && b.sample == a.sample
  }

  /** A write whose two clock readings agree. */
  predicate Steady(op: Op) {
    op.SetOp? || op.PushOp? || op.WriteOp? ==> op.first == op.second
  }

  // ----- what holds of every stored value -----

  ghost predicate AllSound(m: Shard) {
    forall k | k in m :: Sound(m[k])
  }

  lemma FreedSound(m: Shard, protected: set<Key>, target: int, n: int, gone: seq<Key>, now: Shard, ok: bool, time: int)
    requires Freed(Live(m, time), protected, target, n, gone, now, ok) && AllSound(m)
    ensures AllSound(now)
  {
    hide Sum, Size, Reach, Sound, MayLose;
  }

  lemma WrittenSound(m: Shard, key: Key, current: Option<Stored>, value: Stored, now: int, limit: int, n: int,
                     gone: seq<Key>, after: Shard, ok: bool, first: int)
    requires Written(Prepared(m, key, first), key, current, value, now, limit, n, gone, after, ok)
    requires AllSound(m) && Sound(value)
    ensures AllSound(after)
  {
    hide Sum, Size, Freed, Sound;
  }

  lemma WrittenBySound(m: Shard, key: Key, change: Change, stamp: int, first: Instant, second: int, limit: int, n: int,
                       outcome: Outcome<Stored>, gone: seq<Key>, after: Shard)
    requires Checked(change).Done? && AllSound(m) && !Wraps(change, first, Current(m, key, first))
    requires WrittenBy(m, key, c => Make(change, first, stamp, c), first, second, limit, n, outcome, gone, after)
    ensures AllSound(after)
  {
    hide Written, Sound, Make, Wraps, Checked;
    var current := Current(m, key, first);
    if Make(change, first, stamp, current).Done? {
      MakeSound(change, first, stamp, current);
      WrittenSound(m, key, current, Make(change, first, stamp, current).value, second, limit, n, gone, after,
        outcome.Done?, first);
    }
  }

  lemma ReadSound(m: Shard, key: Key, serves: Payload -> bool, first: int, second: int)
    requires AllSound(m)
    ensures AllSound(ReadFrom(m, key, serves, first, second))
  {
    hide Inhabited;
  }

  lemma {:induction false} PushedHas(list: seq<Bytes>, values: seq<Bytes>, left: bool)
    ensures |Pushed(list, values, left)| == |list| + |values|
    decreases |values|
  {
    if values != [] {
      PushedHas(if left then [values[0]] + list else list + [values[0]], values[1..], left);
    }
  }

  lemma PushedSound(m: Shard, key: Key, values: seq<Bytes>, left: bool, stamp: int, first: int, second: int,
                    limit: int, n: int, length: Outcome<int>, gone: seq<Key>, after: Shard)
    requires values != [] && AllSound(m)
    requires PushedInto(m, key, values, left, stamp, first, second, limit, n, length, gone, after)
    ensures AllSound(after)
  {
    hide Written, Pushed;
    var current := Current(m, key, first);
    if length.Done? || length.OutOfMemory? {
      var value := PushedValue(current, values, left, stamp);
      PushedHas(if current.Some? && current.value.payload.List? then current.value.payload.items else [], values, left);
      assert Sound(value);
      WrittenSound(m, key, current, value, second, limit, n, gone, after, length.Done?, first);
    }
  }

  lemma TakenSound(m: Shard, key: Key, t: Taking, first: int, second: int, outcome: Outcome<int>, after: Shard)
    requires TakenFrom(m, key, t, first, second, outcome, after) && AllSound(m)
    ensures AllSound(after)
  {
    hide Less, Asked;
    var current := Current(m, key, first);
    if current.Some? && Suits(t, current.value.payload) {
      CountedHas(Less(t, current.value.payload));
    }
  }

  lemma CountedHas(p: Payload)
    requires IsHash(p) || IsSet(p)
    ensures Cardinality(p) != 0 ==> Inhabited(p)
  {
  }

  lemma DroppedSound(m: Shard, key: Key)
    requires AllSound(m)
    ensures AllSound(m - {key})
  {
    hide Sound;
  }

  lemma PoppedSound(m: Shard, key: Key, count: int, left: bool, first: int, second: int,
                    outcome: Outcome<seq<Bytes>>, after: Shard)
    requires PoppedFrom(m, key, count, left, first, second, outcome, after) && AllSound(m)
    ensures AllSound(after)
  {
    hide Popped;
  }

  lemma SampledSound(m: Shard, keys: seq<Key>, now: int, view: Shard, expired: seq<Key>)
    requires Sampled(m, keys, |keys|, now, view, expired) && AllSound(m)
    ensures AllSound(view)
  {
    hide Sound;
  }

  lemma LiveSound(m: Shard, now: int)
    requires AllSound(m)
    ensures AllSound(Live(m, now))
  {
    hide Sound;
  }
}
