/**
 WATCH, MULTI, EXEC and DISCARD (internal/server/watch_registry.go and
 client_state.go, internal/command/commands.go and types.go). A whole command is one
 step.
 */
module Transactions {
  import opened Order
  import opened WatchSpec

  /** A request: its name and arguments. */
  type Command = seq<Bytes>

  /** The part of the client state that transactions use. */
  class ClientState {
    const id: Id
    var watchedKeys: set<Key>
    var inTransaction: bool
    var txFailed: bool
    var txDirty: bool
    var txQueue: seq<Command>

    constructor (id: Id)
      ensures this.id == id && watchedKeys == {} && !inTransaction && !txFailed && !txDirty && txQueue == []
    {
      this.id := id;
      watchedKeys, inTransaction, txFailed, txDirty, txQueue := {}, false, false, false, [];
    }

    /** No transaction, no watches, no failure. */
    ghost predicate Idle()
      reads this
    {
      !inTransaction && !txFailed && !txDirty && txQueue == [] && watchedKeys == {}
    }

    method BeginTransaction() returns (ok: bool)
      modifies `inTransaction, `txDirty, `txQueue
      ensures ok == old(!inTransaction) && inTransaction
      ensures ok ==> !txDirty && txQueue == []
      ensures !ok ==> txDirty == old(txDirty) && txQueue == old(txQueue)
    {
      if inTransaction {
        return false;
      }
      inTransaction, txDirty, txQueue := true, false, [];
      return true;
    }

    method DrainTransaction() returns (queued: seq<Command>)
      modifies `inTransaction, `txDirty, `txQueue
      ensures queued == old(txQueue) && !inTransaction && !txDirty && txQueue == []
    {
      queued := txQueue;
      inTransaction, txDirty, txQueue := false, false, [];
    }

    method ResetTransaction()
      modifies `inTransaction, `txFailed, `txDirty, `txQueue
      ensures !inTransaction && !txFailed && !txDirty && txQueue == []
    {
      inTransaction, txFailed, txDirty, txQueue := false, false, false, [];
    }
  }

  type Clients = map<Id, ClientState>

  ghost predicate Named(clients: Clients) {
    forall id | id in clients :: clients[id].id == id
  }

  /** Each client's watched keys. */
  ghost function WatchedBy(clients: Clients): map<Id, set<Key>>
    reads clients.Values
  {
    map id | id in clients :: clients[id].watchedKeys
  }

  lemma WatchedNow(clients: Clients, state: ClientState, sets: map<Id, set<Key>>)
    requires Named(clients) && state.id in clients && clients[state.id] == state
    requires sets.Keys == clients.Keys && sets[state.id] == state.watchedKeys
    requires forall id | id in clients && clients[id] != state :: sets[id] == clients[id].watchedKeys
    ensures WatchedBy(clients) == sets
  {
    forall id | id in clients ensures WatchedBy(clients)[id] == sets[id] {
      assert clients[id].id == id;
    }
  }

  /**
   `watchers` lists for each key the clients that watch it, going by `sets`, and
   apart from that `client` for the keys in `extra`.
   */
  ghost predicate Lists(watchers: map<Key, Clients>, clients: Clients, sets: map<Id, set<Key>>,
                        client: Id, extra: set<Key>) {
    && (forall k | k in watchers :: watchers[k] != map[])
    && (forall k, id | k in watchers && id in watchers[k] ::
          && id in clients && watchers[k][id] == clients[id]
          && id in sets && (k in sets[id] || (id == client && k in extra)))
    && (forall id, k | id in sets && k in sets[id] :: k in watchers && id in watchers[k])
  }

  lemma ListsAny(watchers: map<Key, Clients>, clients: Clients, sets: map<Id, set<Key>>, a: Id, b: Id)
    ensures Lists(watchers, clients, sets, a, {}) <==> Lists(watchers, clients, sets, b, {})
  {
  }

  /** What the registry says of one key and one client. */
  lemma ListsAt(watchers: map<Key, Clients>, clients: Clients, sets: map<Id, set<Key>>, client: Id, key: Key, id: Id)
    requires Lists(watchers, clients, sets, client, {})
    ensures key in watchers && id in watchers[key] <==> id in sets && key in sets[id]
    ensures key in watchers && id in watchers[key] ==> id in clients && watchers[key][id] == clients[id]
  {
  }

  lemma ListsMore(watchers: map<Key, Clients>, clients: Clients, sets: map<Id, set<Key>>, id: Id, key: Key)
    requires id in clients && id in sets && Lists(watchers, clients, sets, id, {})
    ensures var group: Clients := if key in watchers then watchers[key] else map[];
            Lists(watchers[key := group[id := clients[id]]], clients, sets[id := sets[id] + {key}], id, {})
  {
    var group: Clients := if key in watchers then watchers[key] else map[];
    assert id in group[id := clients[id]];
  }

  lemma ListsLess(watchers: map<Key, Clients>, clients: Clients, sets: map<Id, set<Key>>, id: Id,
                  extra: set<Key>, key: Key, now: map<Key, Clients>)
    requires Lists(watchers, clients, sets, id, extra) && id in sets && sets[id] == {}
    requires key in watchers ==>
               now == if watchers[key] - {id} == map[] then watchers - {key} else watchers[key := watchers[key] - {id}]
    requires key !in watchers ==> now == watchers
    ensures Lists(now, clients, sets, id, extra - {key})
  {
    if key in watchers {
      forall j | j in sets && key in sets[j] ensures j in watchers[key] - {id} {
      }
    }
  }

  lemma ListsNew(watchers: map<Key, Clients>, clients: Clients, sets: map<Id, set<Key>>, state: ClientState)
    requires Lists(watchers, clients, sets, Id(0), {}) && state.id !in clients && sets.Keys == clients.Keys
    ensures Lists(watchers, clients[state.id := state], sets[state.id := {}], Id(0), {})
  {
  }

  lemma ListsGone(watchers: map<Key, Clients>, clients: Clients, sets: map<Id, set<Key>>, id: Id)
    requires Lists(watchers, clients, sets, Id(0), {}) && id in sets && sets[id] == {}
    ensures Lists(watchers, clients - {id}, sets - {id}, Id(0), {})
  {
  }

  lemma ListsCleared(watchers: map<Key, Clients>, clients: Clients, sets: map<Id, set<Key>>, id: Id)
    requires id in sets && Lists(watchers, clients, sets, id, {})
    ensures Lists(watchers, clients, sets[id := {}], id, sets[id])
  {
  }

  class WatchRegistry {
    var watchers: map<Key, Clients>

    /** The registry and the clients' own sets of watched keys are each other's inverse. */
    ghost predicate Inverse(clients: Clients)
      reads this, clients.Values
    {
      Lists(watchers, clients, WatchedBy(clients), Id(0), {})
    }

    constructor ()
      ensures watchers == map[]
    {
      watchers := map[];
    }

    method Watch(state: ClientState, keys: seq<Key>, ghost clients: Clients)
      requires Named(clients) && state.id in clients && clients[state.id] == state && Inverse(clients)
      modifies this, state`watchedKeys
      ensures Inverse(clients)
      ensures WatchedBy(clients) ==
              old(WatchedBy(clients))[state.id := old(state.watchedKeys) + Watchable(keys)]
    {
      hide Lists;
      ghost var sets := WatchedBy(clients);
      ListsAny(watchers, clients, sets, Id(0), state.id);
      for i := 0 to |keys|
        invariant Lists(watchers, clients, sets, state.id, {})
        invariant sets == old(WatchedBy(clients))[state.id := state.watchedKeys]
        invariant state.watchedKeys == old(state.watchedKeys) + Watchable(keys[..i])
      {
        var key := keys[i];
        assert keys[..i + 1] == keys[..i] + [key];
        if key == [] {
          continue;
        }
        ListsMore(watchers, clients, sets, state.id, key);
        var group: Clients := if key in watchers then watchers[key] else map[];
        watchers := watchers[key := group[state.id := state]];
        state.watchedKeys := state.watchedKeys + {key};
        sets := sets[state.id := sets[state.id] + {key}];
      }
      assert keys[..|keys|] == keys;
      WatchedNow(clients, state, sets);
      ListsAny(watchers, clients, sets, Id(0), state.id);
    }

    method UnwatchAll(state: ClientState, ghost clients: Clients)
      requires Named(clients) && state.id in clients && clients[state.id] == state && Inverse(clients)
      modifies this, state`watchedKeys
      ensures Inverse(clients)
      ensures WatchedBy(clients) == old(WatchedBy(clients))[state.id := {}]
    {
      hide Lists;
      var rest := state.watchedKeys;
      ListsAny(watchers, clients, WatchedBy(clients), Id(0), state.id);
      ghost var sets := WatchedBy(clients)[state.id := {}];
      ListsCleared(watchers, clients, WatchedBy(clients), state.id);
      state.watchedKeys := {};
      WatchedNow(clients, state, sets);
      while rest != {}
        invariant Lists(watchers, clients, sets, state.id, rest)
        invariant WatchedBy(clients) == sets
        decreases |rest|
      {
        var key :| key in rest;
        ghost var before := watchers;
        if key in watchers {
          var group: Clients := watchers[key] - {state.id};
          watchers := if group == map[] then watchers - {key} else watchers[key := group];
        }
        ListsLess(before, clients, sets, state.id, rest, key, watchers);
        rest := rest - {key};
      }
      ListsAny(watchers, clients, sets, Id(0), state.id);
    }

    /** The clients that watch one of the keys. */
    method Watchers(keys: seq<Key>, ghost clients: Clients) returns (states: Clients)
      requires Inverse(clients)
      ensures forall id :: id in states <==> id in clients && Hit(clients[id].watchedKeys, keys)
      ensures forall id | id in states :: states[id] == clients[id]
    {
      hide Lists;
      states := map[];
      for i := 0 to |keys|
        invariant forall id :: id in states <==> id in clients && Hit(clients[id].watchedKeys, keys[..i])
        invariant forall id | id in states :: states[id] == clients[id]
      {
        forall id | id in clients {
          HitMore(clients[id].watchedKeys, keys, i);
        }
        forall id {
          ListsAt(watchers, clients, WatchedBy(clients), Id(0), keys[i], id);
        }
        if keys[i] in watchers {
          states := states + watchers[keys[i]];
        }
      }
      assert keys[..|keys|] == keys;
    }

    method Touch(keys: seq<Key>, ghost clients: Clients)
      requires Named(clients) && Inverse(clients)
      modifies clients.Values`txFailed
      ensures forall id | id in clients ::
                clients[id].txFailed <==> old(clients[id].txFailed) || Hit(clients[id].watchedKeys, keys)
    {
      hide Lists;
      var states := Watchers(keys, clients);
      var rest := states.Keys;
      while rest != {}
        invariant rest <= states.Keys
        invariant forall id | id in clients ::
                    clients[id].txFailed <==> old(clients[id].txFailed) || (id in states && id !in rest)
        decreases |rest|
      {
        var id :| id in rest;
        states[id].txFailed := true;
        rest := rest - {id};
      }
    }
  }

  /** Each client's failure flag. */
  ghost function FailedOf(clients: Clients): map<Id, bool>
    reads clients.Values
  {
    map id | id in clients :: clients[id].txFailed
  }

  lemma NeverHit(effects: nat -> seq<Key>, n: nat)
    ensures !HitByAny({}, effects, n)
  {
  }

  function Least(a: nat, b: nat): nat {
    if a < b then a else b
  }

  ghost function Tagged(id: Id, commands: seq<Command>): seq<(Id, Command)> {
    seq(|commands|, i requires 0 <= i < |commands| => (id, commands[i]))
  }

  datatype Reply =
    | Ok
    | Queued
    | Answer
    /** EXEC's array of as many answers. */
    | Answers(count: nat)
    /** EXEC's null array: a watched key was touched. */
    | Null
    | Refused
    /** EXECABORT: a command was refused while queueing. */
    | Aborted
    /** The context ended while EXEC ran the queue. */
    | Canceled

  datatype Action =
    | WatchKeys(keys: seq<Key>)
    | Begin
    | Send(command: Command, valid: bool, keys: seq<Key>)
    | Commit(effects: nat -> seq<Key>, cancel: nat)
    | Abandon
    | Leave

  datatype Step = Arrive | Change(keys: seq<Key>) | By(id: Id, act: Action)

  // ----- what a run should come to -----

  /** What a client's transaction is, apart from its watches. */
  datatype Session = Session(open: bool, dirty: bool, queue: seq<Command>)

  const IDLE := Session(false, false, [])

  /** A server without a registry or flags: what has happened decides. */
  datatype World = World(sessions: map<Id, Session>, next: nat, history: seq<Event>, executed: seq<(Id, Command)>)

  datatype Outcome = Outcome(world: World, reply: Reply)

  ghost function WatchIn(w: World, id: Id, keys: seq<Key>): Outcome
    requires id in w.sessions
  {
    if w.sessions[id].open then Outcome(w, Refused)
    else Outcome(w.(history := w.history + [Watched(id, keys)]), Ok)
  }

  ghost function BeginIn(w: World, id: Id): Outcome
    requires id in w.sessions
  {
    if w.sessions[id].open then Outcome(w, Refused)
    else Outcome(w.(sessions := w.sessions[id := Session(true, false, [])]), Ok)
  }

  ghost function SendIn(w: World, id: Id, command: Command, valid: bool, keys: seq<Key>): Outcome
    requires id in w.sessions
  {
    var s := w.sessions[id];
    if s.open && valid then
      Outcome(w.(sessions := w.sessions[id := s.(queue := s.queue + [command])]), Queued)
    else if s.open then
      Outcome(w.(sessions := w.sessions[id := s.(dirty := true)]), Refused)
    else if valid then
      Outcome(w.(executed := w.executed + [(id, command)], history := w.history + [Touched(keys)]), Answer)
    else Outcome(w, Refused)
  }

  /** EXEC runs its queue exactly if nothing was refused into it and no key of a kept watch was touched. */
  ghost function CommitIn(w: World, id: Id, effects: nat -> seq<Key>, cancel: nat): Outcome
    requires id in w.sessions
  {
    var s := w.sessions[id];
    if !s.open then Outcome(w, Refused)
    else
      var ended := w.(sessions := w.sessions[id := IDLE], history := w.history + [Cleared(id)]);
      if s.dirty then Outcome(ended, Aborted)
      else if Broken(w.history, id) then Outcome(ended, Null)
      else
        var n := Least(cancel, |s.queue|);
        Outcome(ended.(executed := w.executed + Tagged(id, s.queue[..n]),
                       history := w.history + [Cleared(id)] + Touches(effects, n)),
                if cancel < |s.queue| then Canceled else Answers(|s.queue|))
  }

  ghost function AbandonIn(w: World, id: Id): Outcome
    requires id in w.sessions
  {
    if !w.sessions[id].open then Outcome(w, Refused)
    else Outcome(w.(sessions := w.sessions[id := IDLE], history := w.history + [Cleared(id)]), Ok)
  }

  ghost function ActIn(w: World, id: Id, act: Action): Outcome
    requires id in w.sessions
  {
    match act
    case WatchKeys(keys) => WatchIn(w, id, keys)
    case Begin => BeginIn(w, id)
    case Send(command, valid, keys) => SendIn(w, id, command, valid, keys)
    case Commit(effects, cancel) => CommitIn(w, id, effects, cancel)
    case Abandon => AbandonIn(w, id)
    case Leave => Outcome(w.(sessions := w.sessions - {id}, history := w.history + [Cleared(id)]), Ok)
  }

  /** A step of a client that is not connected is no step. */
  ghost function StepIn(w: World, step: Step): Outcome {
    match step
    case Arrive => Outcome(w.(sessions := w.sessions[Id(w.next) := IDLE], next := w.next + 1), Ok)
    case Change(keys) => Outcome(w.(history := w.history + [Touched(keys)]), Ok)
    case By(id, act) => if id in w.sessions then ActIn(w, id, act) else Outcome(w, Refused)
  }

  ghost function RunIn(w: World, steps: seq<Step>): (World, seq<Reply>) {
    if steps == [] then (w, [])
    else
      var n := |steps| - 1;
      var (before, replies) := RunIn(w, steps[..n]);
      var last := StepIn(before, steps[n]);
      (last.world, replies + [last.reply])
  }

  ghost function SessionOf(c: ClientState): Session
    reads c
  {
    Session(c.inTransaction, c.txDirty, c.txQueue)
  }

  ghost function SessionsOf(clients: Clients): map<Id, Session>
    reads clients.Values
  {
    map id | id in clients :: SessionOf(clients[id])
  }

  lemma SessionsNow(clients: Clients, state: ClientState, before: map<Id, Session>)
    requires Named(clients) && state.id in clients && clients[state.id] == state && before.Keys == clients.Keys
    requires forall id | id in clients && clients[id] != state :: before[id] == SessionOf(clients[id])
    ensures SessionsOf(clients) == before[state.id := SessionOf(state)]
  {
    forall id | id in clients ensures SessionsOf(clients)[id] == before[state.id := SessionOf(state)][id] {
      assert clients[id].id == id;
    }
  }

  lemma SessionsJoin(clients: Clients, state: ClientState)
    ensures SessionsOf(clients[state.id := state]) == SessionsOf(clients)[state.id := SessionOf(state)]
  {
  }

  /** The clients of a server, the registry they share and the commands that have run. */
  class Sessions {
    const registry: WatchRegistry
    var clients: Clients
    var nextId: nat
    var executed: seq<(Id, Command)>
    ghost var history: seq<Event>

    ghost predicate Valid()
      reads this, registry, clients.Values
    {
      && Named(clients)
      && (forall id | id in clients :: id.number < nextId)
      && Known(history, nextId)
      && registry.Inverse(clients)
      && Tells(history, WatchedBy(clients), FailedOf(clients))
    }

    ghost function Now(): World
      reads this, clients.Values
    {
      World(SessionsOf(clients), nextId, history, executed)
    }

    lemma NamedNow()
      requires Valid()
      ensures Named(clients)
    {
    }

    constructor ()
      ensures Valid() && fresh(registry) && clients == map[] && executed == [] && history == [] && nextId == 0
    {
      registry := new WatchRegistry();
      clients, nextId, executed, history := map[], 0, [], [];
    }

    ghost predicate Has(state: ClientState)
      reads this
    {
      state.id in clients && clients[state.id] == state
    }

    /** The watchers of the keys hear of a change to them. */
    method Touch(keys: seq<Key>)
      requires Valid()
      modifies `history, clients.Values`txFailed
      ensures Valid() && history == old(history) + [Touched(keys)]
      ensures forall id | id in clients ::
                clients[id].txFailed <==> old(clients[id].txFailed) || Hit(clients[id].watchedKeys, keys)
    {
      hide Tells, Lists, Known;
      ghost var failed := FailedOf(clients);
      registry.Touch(keys, clients);
      assert WatchedBy(clients) == old(WatchedBy(clients));
      TellsTouched(history, WatchedBy(clients), failed, keys, FailedOf(clients));
      KnownMore(history, nextId, Touched(keys));
      history := history + [Touched(keys)];
    }

    /** A command takes effect and touches `keys`. */
    method Execute(id: Id, command: Command, keys: seq<Key>)
      requires Valid()
      modifies `executed, `history, clients.Values`txFailed
      ensures Valid()
      ensures executed == old(executed) + [(id, command)]
      ensures history == old(history) + [Touched(keys)]
      ensures forall i | i in clients ::
                clients[i].txFailed <==> old(clients[i].txFailed) || Hit(clients[i].watchedKeys, keys)
    {
      hide Tells, Lists, Known;
      Touch(keys);
      executed := executed + [(id, command)];
    }

    /** `handleWatch` */
    method Watch(state: ClientState, keys: seq<Key>) returns (reply: Reply)
      requires Valid() && Has(state)
      modifies `history, registry, state`watchedKeys
      ensures Valid()
      ensures reply == if state.inTransaction then Refused else Ok
      ensures history == old(history) + if reply.Ok? then [Watched(state.id, keys)] else []
    {
      hide Tells, Lists, Known;
      if state.inTransaction {
        return Refused;
      }
      TellsWatched(history, WatchedBy(clients), FailedOf(clients), state.id, keys);
      registry.Watch(state, keys, clients);
      assert FailedOf(clients) == old(FailedOf(clients));
      KnownMore(history, nextId, Watched(state.id, keys));
      history := history + [Watched(state.id, keys)];
      return Ok;
    }

    /** `handleMulti` */
    method Multi(state: ClientState) returns (reply: Reply)
      requires Valid() && Has(state)
      modifies state`inTransaction, state`txDirty, state`txQueue
      ensures Valid() && state.inTransaction
      ensures reply == if old(state.inTransaction) then Refused else Ok
      ensures reply.Ok? ==> state.txQueue == [] && !state.txDirty
      ensures reply.Refused? ==> state.txQueue == old(state.txQueue) && state.txDirty == old(state.txDirty)
    {
      hide Tells, Lists, Known;
      var ok := state.BeginTransaction();
      assert FailedOf(clients) == old(FailedOf(clients)) && WatchedBy(clients) == old(WatchedBy(clients));
      return if ok then Ok else Refused;
    }

    /** Any other command: queued inside a transaction (`maybeQueueRequest`), run outside one. */
    method Submit(state: ClientState, command: Command, valid: bool, keys: seq<Key>) returns (reply: Reply)
      requires Valid() && Has(state)
      modifies `executed, `history, clients.Values`txFailed, state`txDirty, state`txQueue
      ensures Valid()
      ensures
        if old(state.inTransaction) then
          && executed == old(executed) && history == old(history)
          && reply == (if valid then Queued else Refused)
          && state.txQueue == old(state.txQueue) + (if valid then [command] else [])
          && state.txDirty == (old(state.txDirty) || !valid)
        else if valid then
          && reply == Answer && executed == old(executed) + [(state.id, command)]
          && history == old(history) + [Touched(keys)]
        else
          reply == Refused && executed == old(executed) && history == old(history)
      ensures !old(state.inTransaction) ==> SessionOf(state) == old(SessionOf(state))
    {
      hide Tells, Lists, Known;
      if state.inTransaction {
        if !valid {
          state.txDirty := true;
          assert FailedOf(clients) == old(FailedOf(clients)) && WatchedBy(clients) == old(WatchedBy(clients));
          return Refused;
        }
        state.txQueue := state.txQueue + [command];
        assert FailedOf(clients) == old(FailedOf(clients)) && WatchedBy(clients) == old(WatchedBy(clients));
        return Queued;
      }
      if !valid {
        return Refused;
      }
      Execute(state.id, command, keys);
      return Answer;
    }

    /** `UnwatchAll` of a client's state, which also clears its failure flag; `failed` are the flags as they were. */
    method Unwatch(state: ClientState, ghost failed: map<Id, bool>)
      requires Named(clients) && Has(state) && (forall id | id in clients :: id.number < nextId)
      requires Known(history, nextId) && registry.Inverse(clients)
      requires failed.Keys == clients.Keys && Tells(history, WatchedBy(clients), failed)
      requires forall id | id in clients && id != state.id :: failed[id] == clients[id].txFailed
      modifies `history, registry, state`watchedKeys, state`txFailed
      ensures Valid() && history == old(history) + [Cleared(state.id)]
      ensures state.watchedKeys == {} && !state.txFailed
    {
      hide Tells, Lists, Known;
      TellsCleared(history, WatchedBy(clients), failed, state.id);
      registry.UnwatchAll(state, clients);
      label Drained:
      state.txFailed := false;
      assert WatchedBy(clients) == old@Drained(WatchedBy(clients));
      assert WatchedBy(clients)[state.id] == {};
      FailedNow(clients, state.id, failed);
      KnownMore(history, nextId, Cleared(state.id));
      history := history + [Cleared(state.id)];
    }

    /**
     `handleExec`; `effects(i)` are the keys the i-th queued command touches. The context is
     cancelled when the command with the number `cancel` is due, if there is one: the
     commands before it have taken effect.
     */
    method Exec(state: ClientState, effects: nat -> seq<Key>, cancel: nat) returns (reply: Reply)
      requires Valid() && Has(state)
      modifies `executed, `history, registry, clients.Values`txFailed
      modifies state`watchedKeys, state`inTransaction, state`txDirty, state`txQueue
      ensures Valid()
      ensures
        if !old(state.inTransaction) then
          && reply == Refused && executed == old(executed) && history == old(history)
          && SessionOf(state) == old(SessionOf(state)) && state.watchedKeys == old(state.watchedKeys)
        else
          && state.Idle()
          && (if old(state.txDirty) then
                reply == Aborted && executed == old(executed) && history == old(history) + [Cleared(state.id)]
              else if Broken(old(history), state.id) then
                reply == Null && executed == old(executed) && history == old(history) + [Cleared(state.id)]
              else
                var queue := old(state.txQueue);
                && reply == (if cancel < |queue| then Canceled else Answers(|queue|))
                && executed == old(executed) + Tagged(state.id, queue[..Least(cancel, |queue|)])
                && history == old(history) + [Cleared(state.id)] + Touches(effects, Least(cancel, |queue|)))
      ensures forall id | id in clients && id != state.id ::
                clients[id].txFailed <==>
                  old(clients[id].txFailed) ||
                  (reply in {Canceled, Answers(|old(state.txQueue)|)} &&
                   HitByAny(clients[id].watchedKeys, effects, Least(cancel, |old(state.txQueue)|)))
    {
      hide Tells, Lists, Known, Broken, HitByAny, Touches, Tagged;
      if !state.inTransaction {
        return Refused;
      }
      assert state.txFailed <==> Broken(history, state.id) by {
        TellsAt(history, WatchedBy(clients), FailedOf(clients), state.id);
      }
      if state.txDirty {
        EndTransaction(state);
        return Aborted;
      }
      if state.txFailed {
        EndTransaction(state);
        return Null;
      }
      reply := RunTransaction(state, effects, cancel);
    }

    method GiveUpWatches(state: ClientState)
      requires Valid() && Has(state)
      modifies `history, registry, state`watchedKeys, state`txFailed
      ensures Valid() && history == old(history) + [Cleared(state.id)]
      ensures state.watchedKeys == {} && !state.txFailed
    {
      hide Tells, Lists, Known;
      Unwatch(state, FailedOf(clients));
    }

    /** `handleExec` once it has decided to run the queue. */
    method RunTransaction(state: ClientState, effects: nat -> seq<Key>, cancel: nat) returns (reply: Reply)
      requires Valid() && Has(state)
      modifies `executed, `history, registry, clients.Values`txFailed
      modifies state`watchedKeys, state`inTransaction, state`txDirty, state`txQueue
      ensures Valid() && state.Idle()
      ensures
        var queue := old(state.txQueue);
        var n := Least(cancel, |queue|);
        && reply == (if cancel < |queue| then Canceled else Answers(|queue|))
        && executed == old(executed) + Tagged(state.id, queue[..n])
        && history == old(history) + [Cleared(state.id)] + Touches(effects, n)
        && forall id | id in clients && id != state.id ::
             clients[id].txFailed <==> old(clients[id].txFailed) || HitByAny(clients[id].watchedKeys, effects, n)
    {
      NamedNow();
      hide Valid, HitByAny, Touches, Tagged;
      GiveUpWatches(state);
      var queued := Drain(state);
      RunQueue(state, queued[..Least(cancel, |queued|)], effects);
      return if cancel < |queued| then Canceled else Answers(|queued|);
    }

    /** The loop of `handleExec`. */
    method RunQueue(state: ClientState, queued: seq<Command>, effects: nat -> seq<Key>)
      requires Valid() && Has(state) && state.watchedKeys == {} && !state.txFailed
      modifies `executed, `history, clients.Values`txFailed
      ensures Valid() && !state.txFailed
      ensures executed == old(executed) + Tagged(state.id, queued)
      ensures history == old(history) + Touches(effects, |queued|)
      ensures forall id | id in clients ::
                clients[id].txFailed <==>
                  old(clients[id].txFailed) || HitByAny(clients[id].watchedKeys, effects, |queued|)
    {
      hide Tells, Lists, Known, HitByAny, Hit;
      forall id | id in clients {
        HitByMore(clients[id].watchedKeys, effects, 0);
      }
      for i := 0 to |queued|
        invariant Valid()
        invariant executed == old(executed) + Tagged(state.id, queued[..i])
        invariant history == old(history) + Touches(effects, i)
        invariant forall id | id in clients ::
                    clients[id].txFailed <==>
                      old(clients[id].txFailed) || HitByAny(clients[id].watchedKeys, effects, i)
      {
        assert Tagged(state.id, queued[..i + 1]) == Tagged(state.id, queued[..i]) + [(state.id, queued[i])];
        assert Touches(effects, i + 1) == Touches(effects, i) + [Touched(effects(i))];
        forall id | id in clients {
          HitByMore(clients[id].watchedKeys, effects, i);
        }
        Execute(state.id, queued[i], effects(i));
      }
      NeverHit(effects, |queued|);
      assert queued[..|queued|] == queued;
    }

    /** `DrainTransaction` of a client's state. */
    method Drain(state: ClientState) returns (queued: seq<Command>)
      requires Valid() && Has(state)
      modifies state`inTransaction, state`txDirty, state`txQueue
      ensures Valid()
      ensures queued == old(state.txQueue) && !state.inTransaction && !state.txDirty && state.txQueue == []
    {
      hide Tells, Lists, Known;
      queued := state.DrainTransaction();
      assert FailedOf(clients) == old(FailedOf(clients)) && WatchedBy(clients) == old(WatchedBy(clients));
    }

    /** The transaction and the watches are given up: a failed EXEC, DISCARD and the end of a session. */
    method EndTransaction(state: ClientState)
      requires Valid() && Has(state)
      modifies `history, registry
      modifies state`watchedKeys, state`txFailed, state`inTransaction, state`txDirty, state`txQueue
      ensures Valid() && history == old(history) + [Cleared(state.id)]
      ensures state.Idle()
    {
      hide Tells, Lists, Known;
      ghost var failed := FailedOf(clients);
      state.ResetTransaction();
      assert WatchedBy(clients) == old(WatchedBy(clients));
      Unwatch(state, failed);
    }

    /** `handleDiscard` */
    method Discard(state: ClientState) returns (reply: Reply)
      requires Valid() && Has(state)
      modifies `history, registry
      modifies state`watchedKeys, state`txFailed, state`inTransaction, state`txDirty, state`txQueue
      ensures Valid() && reply == if old(state.inTransaction) then Ok else Refused
      ensures reply.Ok? ==> state.Idle() && history == old(history) + [Cleared(state.id)]
      ensures reply.Refused? ==>
                && history == old(history) && state.watchedKeys == old(state.watchedKeys)
                && SessionOf(state) == old(SessionOf(state))
    {
      if !state.inTransaction {
        return Refused;
      }
      EndTransaction(state);
      return Ok;
    }

    method Connect() returns (state: ClientState)
      requires Valid()
      modifies `clients, `nextId
      ensures Valid() && fresh(state) && Has(state) && state.id !in old(clients)
      ensures clients == old(clients)[state.id := state]
      ensures state.id == Id(old(nextId)) && nextId == old(nextId) + 1 && SessionOf(state) == IDLE
    {
      hide Tells, Lists, Known;
      state := new ClientState(Id(nextId));
      KnownLater(history, nextId);
      ListsNew(registry.watchers, clients, WatchedBy(clients), state);
      TellsNew(history, WatchedBy(clients), FailedOf(clients), state.id, nextId);
      nextId := nextId + 1;
      clients := clients[state.id := state];
      assert WatchedBy(clients) == old(WatchedBy(clients))[state.id := {}];
      assert FailedOf(clients) == old(FailedOf(clients))[state.id := false];
    }

    /** The end of a client's session (`Disconnect`). */
    method Disconnect(state: ClientState)
      requires Valid() && Has(state)
      modifies `clients, `history, registry
      modifies state`watchedKeys, state`txFailed, state`inTransaction, state`txDirty, state`txQueue
      ensures Valid() && clients == old(clients) - {state.id} && history == old(history) + [Cleared(state.id)]
    {
      hide Tells, Lists, Known;
      EndTransaction(state);
      Forget(state);
    }

    /** A client that watches nothing leaves the table. */
    method Forget(state: ClientState)
      requires Valid() && Has(state) && state.watchedKeys == {}
      modifies `clients
      ensures Valid() && clients == old(clients) - {state.id}
    {
      hide Tells, Lists, Known;
      assert WatchedBy(clients)[state.id] == {};
      ListsGone(registry.watchers, clients, WatchedBy(clients), state.id);
      TellsGone(history, WatchedBy(clients), FailedOf(clients), state.id);
      clients := clients - {state.id};
      assert WatchedBy(clients) == old(WatchedBy(clients)) - {state.id};
      assert FailedOf(clients) == old(FailedOf(clients)) - {state.id};
    }

    method TakeWatch(state: ClientState, keys: seq<Key>) returns (reply: Reply)
      requires Valid() && Has(state)
      modifies this, registry, clients.Values
      ensures Valid() && clients == old(clients) && Outcome(Now(), reply) == WatchIn(old(Now()), state.id, keys)
    {
      hide Valid;
      reply := Watch(state, keys);
      assert SessionsOf(clients) == old(SessionsOf(clients));
    }

    method TakeBegin(state: ClientState) returns (reply: Reply)
      requires Valid() && Has(state)
      modifies this, registry, clients.Values
      ensures Valid() && clients == old(clients) && Outcome(Now(), reply) == BeginIn(old(Now()), state.id)
    {
      hide Valid, Named;
      reply := Multi(state);
      NamedNow();
      SessionsNow(clients, state, old(SessionsOf(clients)));
      assert reply.Refused? ==> old(SessionsOf(clients))[state.id] == SessionOf(state);
    }

    method TakeSend(state: ClientState, command: Command, valid: bool, keys: seq<Key>) returns (reply: Reply)
      requires Valid() && Has(state)
      modifies this, registry, clients.Values
      ensures Valid() && clients == old(clients)
      ensures Outcome(Now(), reply) == SendIn(old(Now()), state.id, command, valid, keys)
    {
      hide Valid, Named;
      reply := Submit(state, command, valid, keys);
      NamedNow();
      SessionsNow(clients, state, old(SessionsOf(clients)));
      assert old(state.txQueue) + [] == old(state.txQueue);
      assert !old(state.inTransaction) ==> old(SessionsOf(clients))[state.id] == SessionOf(state);
    }

    method TakeCommit(state: ClientState, effects: nat -> seq<Key>, cancel: nat) returns (reply: Reply)
      requires Valid() && Has(state)
      modifies this, registry, clients.Values
      ensures Valid() && clients == old(clients)
      ensures Outcome(Now(), reply) == CommitIn(old(Now()), state.id, effects, cancel)
    {
      hide HitByAny, Touches, Tagged, Broken, Valid, Named;
      reply := Exec(state, effects, cancel);
      NamedNow();
      SessionsNow(clients, state, old(SessionsOf(clients)));
      assert !old(state.inTransaction) ==> old(SessionsOf(clients))[state.id] == SessionOf(state);
    }

    method TakeAbandon(state: ClientState) returns (reply: Reply)
      requires Valid() && Has(state)
      modifies this, registry, clients.Values
      ensures Valid() && clients == old(clients) && Outcome(Now(), reply) == AbandonIn(old(Now()), state.id)
    {
      hide Valid, Named;
      reply := Discard(state);
      NamedNow();
      SessionsNow(clients, state, old(SessionsOf(clients)));
      assert reply.Refused? ==> old(SessionsOf(clients))[state.id] == SessionOf(state);
    }

    method TakeLeave(state: ClientState)
      requires Valid() && Has(state)
      modifies this, registry, clients.Values
      ensures Valid() && clients == old(clients) - {state.id}
      ensures Outcome(Now(), Ok) == ActIn(old(Now()), state.id, Leave)
    {
      hide Valid, Named;
      NamedNow();
      Disconnect(state);
      assert SessionsOf(clients) == old(SessionsOf(clients)) - {state.id};
    }

    /** One whole command of one client. */
    method Act(state: ClientState, act: Action) returns (reply: Reply)
      requires Valid() && Has(state)
      modifies this, registry, clients.Values
      ensures Valid() && clients.Values <= old(clients.Values)
      ensures Outcome(Now(), reply) == ActIn(old(Now()), state.id, act)
    {
      hide Valid, WatchIn, BeginIn, SendIn, CommitIn, AbandonIn, SessionsOf;
      match act {
        case WatchKeys(keys) => reply := TakeWatch(state, keys);
        case Begin => reply := TakeBegin(state);
        case Send(command, valid, keys) => reply := TakeSend(state, command, valid, keys);
        case Commit(effects, cancel) => reply := TakeCommit(state, effects, cancel);
        case Abandon => reply := TakeAbandon(state);
        case Leave =>
          TakeLeave(state);
          reply := Ok;
      }
    }

    method TakeArrive()
      requires Valid()
      modifies this
      ensures Valid()
      ensures forall c | c in clients.Values :: c in old(clients.Values) || fresh(c)
      ensures Now() == StepIn(old(Now()), Arrive).world
    {
      hide Valid, Tells, Lists, Known, Named;
      var state := Connect();
      SessionsJoin(old(clients), state);
      assert SessionsOf(old(clients)) == old(SessionsOf(clients));
    }

    method TakeChange(keys: seq<Key>)
      requires Valid()
      modifies this, clients.Values
      ensures Valid() && clients == old(clients) && Now() == StepIn(old(Now()), Change(keys)).world
    {
      hide Valid;
      Touch(keys);
      assert SessionsOf(clients) == old(SessionsOf(clients));
    }

    /** One whole command of one client; a client that is not connected does nothing. */
    method Take(step: Step) returns (reply: Reply)
      requires Valid()
      modifies this, registry, clients.Values
      ensures Valid()
      ensures forall c | c in clients.Values :: c in old(clients.Values) || fresh(c)
      ensures Outcome(Now(), reply) == StepIn(old(Now()), step)
    {
      hide Tells, Lists, Known, ActIn;
      reply := Ok;
      match step {
        case Arrive => TakeArrive();
        case Change(keys) => TakeChange(keys);
        case By(id, act) =>
          if id in clients {
            assert clients[id].id == id;
            reply := Act(clients[id], act);
          } else {
            reply := Refused;
          }
      }
    }
  }

  lemma FailedNow(clients: Clients, id: Id, before: map<Id, bool>)
    requires Named(clients) && id in clients && !clients[id].txFailed && before.Keys == clients.Keys
    requires forall i | i in clients && i != id :: clients[i].txFailed == before[i]
    ensures FailedOf(clients) == before[id := false]
  {
  }

  /**
   Over every interleaving of whole commands the index stays two-way, each flag means what
   it says, and every reply, every command run and every watch broken is what the plain
   account of what has happened says.
   */
  method Run(sessions: Sessions, steps: seq<Step>) returns (replies: seq<Reply>)
    requires sessions.Valid()
    modifies sessions, sessions.registry, sessions.clients.Values
    ensures sessions.Valid()
    ensures (sessions.Now(), replies) == RunIn(old(sessions.Now()), steps)
  {
    hide Tells, Lists, Known, StepIn;
    replies := [];
    assert steps[..0] == [];
    for i := 0 to |steps|
      invariant sessions.Valid()
      invariant forall c | c in sessions.clients.Values :: c in old(sessions.clients.Values) || fresh(c)
      invariant (sessions.Now(), replies) == RunIn(old(sessions.Now()), steps[..i])
    {
      assert steps[..i + 1][..i] == steps[..i];
      var reply := sessions.Take(steps[i]);
      replies := replies + [reply];
    }
    assert steps[..|steps|] == steps;
  }
}
