/** What a client's optimistic lock means, in terms of what has happened so far. */
module WatchSpec {
  import opened Order

  type Key = Bytes

  datatype Id = Id(number: nat)

  datatype Event =
    | Watched(client: Id, keys: seq<Key>)
    | Touched(keys: seq<Key>)
    /** The client's watches were given up: EXEC, DISCARD or the end of its session. */
    | Cleared(client: Id)

  /** The event makes `id` watch `k`; the empty key is never watched. */
  predicate Starts(e: Event, id: Id, k: Key) {
    e.Watched? && e.client == id && k in e.keys && k != []
  }

  ghost predicate KeptSince(h: seq<Event>, id: Id, i: nat) {
    forall j | i < j < |h| :: h[j] != Cleared(id)
  }

  ghost predicate Watches(h: seq<Event>, id: Id, k: Key) {
    exists i | 0 <= i < |h| :: Starts(h[i], id, k) && KeptSince(h, id, i)
  }

  /** Some key was touched after `id` began to watch it, in a watch still kept. */
  ghost predicate Broken(h: seq<Event>, id: Id) {
    exists i, j, k | 0 <= i < j < |h| && Starts(h[i], id, k) && h[j].Touched? && k in h[j].keys ::
      KeptSince(h, id, i)
  }

  lemma KeptMore(h: seq<Event>, e: Event, id: Id, i: nat)
    requires 0 <= i < |h|
    ensures KeptSince(h + [e], id, i) <==> KeptSince(h, id, i) && e != Cleared(id)
  {
    if KeptSince(h + [e], id, i) {
      assert (h + [e])[|h|] == e;
      forall j | i < j < |h| ensures h[j] != Cleared(id) {
        assert (h + [e])[j] == h[j];
      }
    }
  }

  lemma WatchesMore(h: seq<Event>, e: Event, id: Id, k: Key)
    ensures Watches(h + [e], id, k) <==> Starts(e, id, k) || (Watches(h, id, k) && e != Cleared(id))
  {
    var g := h + [e];
    if i :| 0 <= i < |g| && Starts(g[i], id, k) && KeptSince(g, id, i) {
      if i < |h| {
        KeptMore(h, e, id, i);
        assert Starts(h[i], id, k);
      }
    }
    if Starts(e, id, k) {
      assert Starts(g[|h|], id, k) && KeptSince(g, id, |h|);
    } else if Watches(h, id, k) && e != Cleared(id) {
      var i :| 0 <= i < |h| && Starts(h[i], id, k) && KeptSince(h, id, i);
      KeptMore(h, e, id, i);
      assert Starts(g[i], id, k);
    }
  }

  lemma BrokenMore(h: seq<Event>, e: Event, id: Id)
    ensures Broken(h + [e], id) <==>
              && e != Cleared(id)
              && (Broken(h, id) || (e.Touched? && exists k | k in e.keys :: Watches(h, id, k)))
  {
    var g := h + [e];
    if Broken(g, id) {
      var i, j, k :| 0 <= i < j < |g| && Starts(g[i], id, k) && g[j].Touched? && k in g[j].keys && KeptSince(g, id, i);
      KeptMore(h, e, id, i);
      assert Starts(h[i], id, k);
      if j < |h| {
        assert h[j].Touched? && k in h[j].keys;
      } else {
        assert Watches(h, id, k);
      }
    }
    if e != Cleared(id) && Broken(h, id) {
      var i, j, k :| 0 <= i < j < |h| && Starts(h[i], id, k) && h[j].Touched? && k in h[j].keys && KeptSince(h, id, i);
      KeptMore(h, e, id, i);
      assert Starts(g[i], id, k) && g[j].Touched? && k in g[j].keys;
    } else if e.Touched? && exists k | k in e.keys :: Watches(h, id, k) {
      var k :| k in e.keys && Watches(h, id, k);
      var i :| 0 <= i < |h| && Starts(h[i], id, k) && KeptSince(h, id, i);
      KeptMore(h, e, id, i);
      assert Starts(g[i], id, k) && g[|h|].Touched? && k in g[|h|].keys;
    }
  }

  /** One of the keys is in the set. */
  ghost predicate Hit(watched: set<Key>, keys: seq<Key>) {
    exists k | k in keys :: k in watched
  }

  lemma HitMore(watched: set<Key>, keys: seq<Key>, i: nat)
    requires i < |keys|
    ensures Hit(watched, keys[..i + 1]) <==> Hit(watched, keys[..i]) || keys[i] in watched
  {
    assert keys[..i + 1] == keys[..i] + [keys[i]];
    if Hit(watched, keys[..i]) {
      var k :| k in keys[..i] && k in watched;
      assert k in keys[..i + 1];
    }
    if keys[i] in watched {
      assert keys[i] in keys[..i + 1];
    }
  }

  /** One of the first `n` batches of keys hits the set. */
  ghost predicate HitByAny(watched: set<Key>, effects: nat -> seq<Key>, n: nat) {
    exists i | 0 <= i < n :: Hit(watched, effects(i))
  }

  lemma HitByMore(watched: set<Key>, effects: nat -> seq<Key>, n: nat)
    ensures HitByAny(watched, effects, n + 1) <==> HitByAny(watched, effects, n) || Hit(watched, effects(n))
    ensures !HitByAny(watched, effects, 0)
  {
    hide Hit;
  }

  /** Batches of keys touched one after the other. */
  ghost function Touches(effects: nat -> seq<Key>, n: nat): seq<Event> {
    seq(n, i requires 0 <= i < n => Touched(effects(i)))
  }

  function Watchable(keys: seq<Key>): set<Key> {
    set k | k in keys && k != []
  }

  /** Only clients numbered below `next` have watched anything. */
  ghost predicate Known(h: seq<Event>, next: nat) {
    forall i | 0 <= i < |h| && h[i].Watched? :: h[i].client.number < next
  }

  lemma KnownLater(h: seq<Event>, next: nat)
    requires Known(h, next)
    ensures Known(h, next + 1)
  {
  }

  lemma KnownMore(h: seq<Event>, next: nat, e: Event)
    requires Known(h, next) && (e.Watched? ==> e.client.number < next)
    ensures Known(h + [e], next)
  {
  }

  /** The clients' watched keys and failure flags are what has happened says they are. */
  ghost predicate Tells(h: seq<Event>, sets: map<Id, set<Key>>, failed: map<Id, bool>) {
    && (forall id, k | id in sets :: k in sets[id] <==> Watches(h, id, k))
    && (forall id | id in failed :: failed[id] <==> Broken(h, id))
  }

  lemma TellsAt(h: seq<Event>, sets: map<Id, set<Key>>, failed: map<Id, bool>, id: Id)
    requires Tells(h, sets, failed) && id in failed
    ensures failed[id] <==> Broken(h, id)
  {
  }

  /** Nothing has happened yet to a client that has just arrived. */
  lemma TellsNew(h: seq<Event>, sets: map<Id, set<Key>>, failed: map<Id, bool>, id: Id, next: nat)
    requires Tells(h, sets, failed) && Known(h, next) && id.number >= next
    ensures Tells(h, sets[id := {}], failed[id := false])
  {
  }

  lemma TellsGone(h: seq<Event>, sets: map<Id, set<Key>>, failed: map<Id, bool>, id: Id)
    requires Tells(h, sets, failed)
    ensures Tells(h, sets - {id}, failed - {id})
  {
  }

  lemma TellsWatched(h: seq<Event>, sets: map<Id, set<Key>>, failed: map<Id, bool>, id: Id, keys: seq<Key>)
    requires Tells(h, sets, failed) && id in sets
    ensures Tells(h + [Watched(id, keys)], sets[id := sets[id] + Watchable(keys)], failed)
  {
    hide Watches, Broken;
    var e := Watched(id, keys);
    forall i, k {
      WatchesMore(h, e, i, k);
    }
    forall i {
      BrokenMore(h, e, i);
    }
  }

  lemma TellsCleared(h: seq<Event>, sets: map<Id, set<Key>>, failed: map<Id, bool>, id: Id)
    requires Tells(h, sets, failed) && id in sets && id in failed
    ensures Tells(h + [Cleared(id)], sets[id := {}], failed[id := false])
  {
    hide Watches, Broken;
    var e := Cleared(id);
    forall i, k {
      WatchesMore(h, e, i, k);
    }
    forall i {
      BrokenMore(h, e, i);
    }
  }

  lemma TellsTouched(h: seq<Event>, sets: map<Id, set<Key>>, failed: map<Id, bool>, keys: seq<Key>, now: map<Id, bool>)
    requires Tells(h, sets, failed) && now.Keys == failed.Keys == sets.Keys
    requires forall id | id in failed :: now[id] <==> failed[id] || Hit(sets[id], keys)
    ensures Tells(h + [Touched(keys)], sets, now)
  {
    hide Watches, Broken;
    var e := Touched(keys);
    forall i, k {
      WatchesMore(h, e, i, k);
    }
    forall i {
      BrokenMore(h, e, i);
    }
    forall id | id in failed ensures Hit(sets[id], keys) <==> exists k | k in e.keys :: Watches(h, id, k) {
      if Hit(sets[id], keys) {
        var k :| k in keys && k in sets[id];
        assert k in e.keys && Watches(h, id, k);
      }
    }
  }
}
