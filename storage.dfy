/**
 * Map-backed keyed state (storage.ts): one shared associative container
 * holding string keys, a listener registry keyed by event name, and the
 * change path that turns the container's changed keys into a diff delivered
 * to the `stateChanged` listeners.
 *
 * The replicated map is a `map<string, Option<V>>` field; `None` is a key
 * whose stored value is `undefined`. Every write to the container notifies
 * the observer synchronously with the set of keys that write changed, and
 * every listener call is recorded, in order, in the ghost `log`.
 */
module KeyedStorage {
  import opened Wrappers
  import opened Filter

  /** A JavaScript object given to the storage, as its `Object.entries`, in order. */
  type Entries<V> = seq<(string, Option<V>)>

  /** A registered listener function, identified by a handle. */
  type ListenerId = nat

  /** One call of listener `listener` with argument `diff`. */
  datatype Delivery<V> = Delivery(listener: ListenerId, diff: map<string, V>)

  /** The function returned by `on`: it unregisters `listener` from `event`. */
  datatype Disposer = Disposer(event: string, listener: ListenerId)

  const STATE_CHANGED: string := "stateChanged"

  /** Name of the container a storage is bound to inside the shared document. */
  function ContainerName(roomId: string, storageId: string): (name: string)
    ensures |name| == |"synced-"| + |roomId| + 1 + |storageId|
    ensures name[..|"synced-"|] == "synced-"
    ensures name[|name| - |storageId|..] == storageId
  {
    "synced-" + roomId + "-" + storageId
  }

  /** Within one room, distinct storage ids give distinct container names. */
  lemma ContainerNameInjective(roomId: string, a: string, b: string)
    ensures ContainerName(roomId, a) == ContainerName(roomId, b) ==> a == b
  {
    if ContainerName(roomId, a) == ContainerName(roomId, b) {
      var n := |"synced-" + roomId + "-"|;
      assert a == ContainerName(roomId, a)[n..];
      assert b == ContainerName(roomId, b)[n..];
    }
  }

  /** The keys of an object given as entries. */
  function KeysOf<V>(es: Entries<V>): set<string>
  {
    set i | 0 <= i < |es| :: es[i].0
  }

  /** The keys of a JavaScript object are distinct. */
  predicate DistinctKeys<V>(es: Entries<V>)
  {
    forall i, j :: 0 <= i < j < |es| ==> es[i].0 != es[j].0
  }

  /** The plain object built from the container: the keys whose value is defined. */
  function Defined<V>(m: map<string, Option<V>>): map<string, V>
  {
    map k | k in m && m[k].Some? :: m[k].value
  }

  /** The diff of a change event: each changed key whose current value is defined. */
  function DiffOf<V>(m: map<string, Option<V>>, changed: set<string>): map<string, V>
  {
    map k | k in changed && k in m && m[k].Some? :: m[k].value
  }

  /** The listeners of `event`, in registration order; none for an unknown event. */
  function ListenersOf(reg: map<string, seq<ListenerId>>, event: string): seq<ListenerId>
  {
    if event in reg then reg[event] else []
  }

  /** One call of each listener of `ls`, in list order, with the same argument. */
  function Broadcast<V>(ls: seq<ListenerId>, diff: map<string, V>): seq<Delivery<V>>
  {
    seq(|ls|, i requires 0 <= i < |ls| => Delivery(ls[i], diff))
  }

  /** The diff observed right after `set(key, value)`. */
  function WriteDiff<V>(key: string, value: Option<V>): map<string, V>
  {
    if value.Some? then map[key := value.value] else map[]
  }

  /** The container after `setState(es)`: each entry written in order, empty keys skipped. */
  function SetAll<V>(m: map<string, Option<V>>, es: Entries<V>): map<string, Option<V>>
  {
    if es == [] then m
    else
      var m' := SetAll(m, es[..|es| - 1]);
      var (k, v) := es[|es| - 1];
      if k == "" then m' else m'[k := v]
  }

  /** The listener calls made by `setState(es)`: one broadcast per written entry. */
  function SetLog<V>(ls: seq<ListenerId>, es: Entries<V>): seq<Delivery<V>>
  {
    if es == [] then []
    else
      var (k, v) := es[|es| - 1];
      SetLog(ls, es[..|es| - 1]) + if k == "" then [] else Broadcast(ls, WriteDiff(k, v))
  }

  /** The container after `initializeState(es)`: an entry is written only if its key is absent. */
  function Seed<V>(m: map<string, Option<V>>, es: Entries<V>): map<string, Option<V>>
  {
    if es == [] then m
    else
      var m' := Seed(m, es[..|es| - 1]);
      var (k, v) := es[|es| - 1];
      if k in m' then m' else m'[k := v]
  }

  /** The listener calls made by `initializeState(es)` on container `m`. */
  function SeedLog<V>(ls: seq<ListenerId>, m: map<string, Option<V>>, es: Entries<V>): seq<Delivery<V>>
  {
    if es == [] then []
    else
      var (k, v) := es[|es| - 1];
      SeedLog(ls, m, es[..|es| - 1]) + if k in Seed(m, es[..|es| - 1]) then [] else Broadcast(ls, WriteDiff(k, v))
  }

  /** `n` copies of the broadcast `b`, one after the other. */
  function Repeat<V>(b: seq<Delivery<V>>, n: nat): seq<Delivery<V>>
  {
    if n == 0 then [] else Repeat(b, n - 1) + b
  }

  class Storage<V> {
    const roomId: string
    const storageId: string
    /** The container this storage is bound to. */
    const name: string
    const initialState: Entries<V>

    /** The replicated map's current content. */
    var state: map<string, Option<V>>
    /** Event name to listeners, in registration order. */
    var listeners: map<string, seq<ListenerId>>
    /** Every listener call made so far, in order. */
    ghost var log: seq<Delivery<V>>

    /**
     * Binds to the container named after room and storage id, whose content
     * the replication engine currently holds as `existing`, and seeds it from
     * `initialState` only when it is empty. No listener is registered yet,
     * so seeding calls none.
     */
    constructor (roomId: string, storageId: string, initialState: Entries<V>, existing: map<string, Option<V>>)
      ensures this.roomId == roomId && this.storageId == storageId && this.initialState == initialState
      ensures name == ContainerName(roomId, storageId)
      ensures state == if |existing| == 0 then Seed(map[], initialState) else existing
      ensures listeners == map[] && log == []
    {
      this.roomId := roomId;
      this.storageId := storageId;
      this.initialState := initialState;
      name := ContainerName(roomId, storageId);
      state := existing;
      listeners := map[];
      log := [];
      new;
      if |existing| == 0 {
        InitializeState(initialState);
        SeedLogSilent(map[], initialState);
      }
    }

    /** The listeners that a `stateChanged` event reaches. */
    function Observers(): seq<ListenerId>
      reads this
    {
      ListenersOf(listeners, STATE_CHANGED)
    }

    /** Writes every entry whose key is absent; keys already present keep their value. */
    method InitializeState(es: Entries<V>)
      modifies this`state, this`log
      ensures state == Seed(old(state), es)
      ensures log == old(log) + SeedLog(Observers(), old(state), es)
    {
      var i := 0;
      while i < |es|
        invariant 0 <= i <= |es|
        invariant state == Seed(old(state), es[..i])
        invariant log == old(log) + SeedLog(Observers(), old(state), es[..i])
      {
        assert es[..i + 1][..i] == es[..i];
        var (key, value) := es[i];
        if key !in state {
          ghost var before := state;
          state := state[key := value];
          HandleStateChange({key});
          WriteDiffObserved(before, key, value);
        }
        i := i + 1;
      }
      assert es[..i] == es;
    }

    /** The snapshot: exactly the stored entries whose value is defined. */
    method GetState() returns (r: map<string, V>)
      ensures forall k :: k in r <==> k in state && state[k].Some?
      ensures forall k :: k in r ==> state[k] == Some(r[k])
      ensures r == Defined(state)
    {
      r := map[];
      var todo := state.Keys;
      while todo != {}
        invariant todo <= state.Keys
        invariant r == DiffOf(state, state.Keys - todo)
        decreases todo
      {
        var key :| key in todo;
        if state[key].Some? {
          r := r[key := state[key].value];
        }
        todo := todo - {key};
      }
    }

    /** Writes every entry of `newState` in order, skipping the empty key. */
    method SetState(newState: Entries<V>)
      modifies this`state, this`log
      ensures state == SetAll(old(state), newState)
      ensures log == old(log) + SetLog(Observers(), newState)
    {
      var i := 0;
      while i < |newState|
        invariant 0 <= i <= |newState|
        invariant state == SetAll(old(state), newState[..i])
        invariant log == old(log) + SetLog(Observers(), newState[..i])
      {
        assert newState[..i + 1][..i] == newState[..i];
        var (key, value) := newState[i];
        if key != "" {
          ghost var before := state;
          state := state[key := value];
          HandleStateChange({key});
          WriteDiffObserved(before, key, value);
        }
        i := i + 1;
      }
      assert newState[..i] == newState;
    }

    /** Clears the container, then seeds it again from the original initial state. */
    method ResetState()
      modifies this`state, this`log
      ensures state == Seed(map[], initialState)
      ensures log == old(log) + (if |old(state)| == 0 then [] else Broadcast(Observers(), map[]))
                               + SeedLog(Observers(), map[], initialState)
    {
      var cleared := state.Keys;
      state := map[];
      if cleared != {} {
        HandleStateChange(cleared);
        assert DiffOf(state, cleared) == map[];
      }
      InitializeState(initialState);
    }

    /** `deleteState(key)`: removes `key` if present; otherwise nothing happens. */
    method DeleteByKey(key: string)
      modifies this`state, this`log
      ensures state == old(state) - {key}
      ensures log == old(log) + if key in old(state) then Broadcast(Observers(), map[]) else []
    {
      if key !in state {
        return;
      }
      state := state - {key};
      HandleStateChange({key});
      assert DiffOf(state, {key}) == map[];
    }

    /**
     * `deleteState(record)`: removes every key of `given` that is present,
     * ignoring `given`'s values; one empty-diff event per removed key.
     */
    method DeleteByFields(given: Entries<V>)
      modifies this`state, this`log
      ensures state == old(state) - KeysOf(given)
      ensures log == old(log) + Repeat(Broadcast(Observers(), map[]), |old(state).Keys * KeysOf(given)|)
    {
      ghost var done: set<string> := {};
      var i := 0;
      while i < |given|
        invariant 0 <= i <= |given|
        invariant done == KeysOf(given[..i])
        invariant state == old(state) - done
        invariant log == old(log) + Repeat(Broadcast(Observers(), map[]), |old(state).Keys * done|)
      {
        KeysOfSnoc(given, i);
        DeleteField(given[i].0, old(state), old(log), done);
        done := done + {given[i].0};
        i := i + 1;
      }
      assert given[..i] == given;
    }

    /**
     * One key of `deleteState(record)`, after the keys `done` were handled:
     * the state and the log stay those of deleting `done + {key}` from `origin`.
     */
    method DeleteField(key: string, ghost origin: map<string, Option<V>>, ghost base: seq<Delivery<V>>, ghost done: set<string>)
      requires state == origin - done
      requires log == base + Repeat(Broadcast(Observers(), map[]), |origin.Keys * done|)
      modifies this`state, this`log
      ensures state == origin - (done + {key})
      ensures log == base + Repeat(Broadcast(Observers(), map[]), |origin.Keys * (done + {key})|)
    {
      ghost var s0, l0 := state, log;
      DeleteByKey(key);
      DeleteFieldStep(origin, done, key, s0, base, Broadcast(Observers(), map[]), l0);
    }

    /** Appends `listener` to the end of `event`'s list and returns its disposer. */
    method On(event: string, listener: ListenerId) returns (d: Disposer)
      modifies this`listeners
      ensures listeners == old(listeners)[event := ListenersOf(old(listeners), event) + [listener]]
      ensures d == Disposer(event, listener)
    {
      if event !in listeners {
        listeners := listeners[event := []];
      }
      listeners := listeners[event := listeners[event] + [listener]];
      d := Disposer(event, listener);
    }

    /** Calls the disposer `d` returned by `On`: filters its listener out of its event's list. */
    method Dispose(d: Disposer)
      requires d.event in listeners
      modifies this`listeners
      ensures listeners == old(listeners)[d.event := Without(old(listeners)[d.event], d.listener)]
    {
      listeners := listeners[d.event := Without(listeners[d.event], d.listener)];
    }

    /** Filters `listener` out of `event`'s list; an unknown event is left alone. */
    method Off(event: string, listener: ListenerId)
      modifies this`listeners
      ensures listeners == if event in old(listeners)
                           then old(listeners)[event := Without(old(listeners)[event], listener)]
                           else old(listeners)
    {
      if event in listeners {
        listeners := listeners[event := Without(listeners[event], listener)];
      }
    }

    /** Calls every listener of `event`, in registration order, with `diff`. */
    method Emit(event: string, diff: map<string, V>)
      modifies this`log
      ensures log == old(log) + Broadcast(ListenersOf(listeners, event), diff)
    {
      if event in listeners {
        var ls := listeners[event];
        var i := 0;
        while i < |ls|
          invariant 0 <= i <= |ls|
          invariant log == old(log) + Broadcast(ls[..i], diff)
        {
          assert Broadcast(ls[..i + 1], diff) == Broadcast(ls[..i], diff) + [Delivery(ls[i], diff)];
          log := log + [Delivery(ls[i], diff)];
          i := i + 1;
        }
        assert ls[..i] == ls;
      }
    }

    /** The diff for a change event: the changed keys whose current value is defined. */
    method ChangedDiff(keysChanged: set<string>) returns (diff: map<string, V>)
      ensures forall k :: k in diff <==> k in keysChanged && k in state && state[k].Some?
      ensures forall k :: k in diff ==> state[k] == Some(diff[k])
      ensures diff == DiffOf(state, keysChanged)
    {
      diff := map[];
      var todo := keysChanged;
      while todo != {}
        invariant todo <= keysChanged
        invariant diff == DiffOf(state, keysChanged - todo)
        decreases todo
      {
        var key :| key in todo;
        if key in state && state[key].Some? {
          diff := diff[key := state[key].value];
        }
        todo := todo - {key};
      }
    }

    /** The container's observer: one `stateChanged` event carrying the diff. */
    method HandleStateChange(keysChanged: set<string>)
      modifies this`log
      ensures log == old(log) + Broadcast(Observers(), DiffOf(state, keysChanged))
    {
      var diff := ChangedDiff(keysChanged);
      Emit(STATE_CHANGED, diff);
    }
  }

  /** Right after `set(key, value)`, the change event for `{key}` carries `WriteDiff(key, value)`. */
  lemma WriteDiffObserved<V>(m: map<string, Option<V>>, key: string, value: Option<V>)
    ensures DiffOf(m[key := value], {key}) == WriteDiff(key, value)
  {
  }

  lemma KeysOfSnoc<V>(es: Entries<V>, i: nat)
    requires i < |es|
    ensures KeysOf(es[..i + 1]) == KeysOf(es[..i]) + {es[i].0}
  {
    assert es[..i + 1][..i] == es[..i];
  }

  /** Deleting one more key `k` adds one to the count of present keys deleted iff it was present and new. */
  lemma CountStep(present: set<string>, done: set<string>, k: string)
    ensures |present * (done + {k})| == |present * done| + if k in present && k !in done then 1 else 0
  {
    if k in present && k !in done {
      assert present * (done + {k}) == present * done + {k};
    } else {
      assert present * (done + {k}) == present * done;
    }
  }

  lemma MinusStep<V>(m: map<string, Option<V>>, done: set<string>, k: string)
    ensures (m - done) - {k} == m - (done + {k})
    ensures k in m - done <==> k in m && k !in done
  {
  }

  /** One more `n`-counted broadcast, when the key deleted was present. */
  lemma RepeatStep<V>(base: seq<Delivery<V>>, b: seq<Delivery<V>>, n: nat, present: bool)
    ensures base + Repeat(b, n) + (if present then b else []) == base + Repeat(b, n + if present then 1 else 0)
  {
    if present {
      assert Repeat(b, n + 1) == Repeat(b, n) + b;
    } else {
      assert Repeat(b, n) + [] == Repeat(b, n);
    }
  }

  /** Deleting one more key from `origin - done` is deleting `done + {key}`, and adds one broadcast iff the key was there. */
  lemma DeleteFieldStep<V>(origin: map<string, Option<V>>, done: set<string>, key: string,
                           s0: map<string, Option<V>>, base: seq<Delivery<V>>, b: seq<Delivery<V>>, l0: seq<Delivery<V>>)
    requires s0 == origin - done
    requires l0 == base + Repeat(b, |origin.Keys * done|)
    ensures s0 - {key} == origin - (done + {key})
    ensures l0 + (if key in s0 then b else []) == base + Repeat(b, |origin.Keys * (done + {key})|)
  {
    CountStep(origin.Keys, done, key);
    MinusStep(origin, done, key);
    RepeatStep(base, b, |origin.Keys * done|, key in s0);
  }

  /** With no listener registered, seeding calls nobody. */
  lemma {:induction false} SeedLogSilent<V>(m: map<string, Option<V>>, es: Entries<V>)
    ensures SeedLog([], m, es) == []
  {
    if es != [] {
      SeedLogSilent(m, es[..|es| - 1]);
    }
  }
}

/** Properties of the storage operations, stated on the specification functions. */
module KeyedStorageProperties {
  import opened Wrappers
  import opened Filter
  import opened KeyedStorage

  lemma {:induction false} SeedKeys<V>(m: map<string, Option<V>>, es: Entries<V>)
    ensures Seed(m, es).Keys == m.Keys + KeysOf(es)
  {
    if es != [] {
      SeedKeys(m, es[..|es| - 1]);
      KeysOfSnoc(es, |es| - 1);
      assert es[..|es| - 1 + 1] == es;
    }
  }

  /** Seeding never overwrites: every key already present keeps its value. */
  lemma {:induction false} SeedKeepsPresent<V>(m: map<string, Option<V>>, es: Entries<V>, k: string)
    requires k in m
    ensures k in Seed(m, es) && Seed(m, es)[k] == m[k]
  {
    if es != [] {
      SeedKeepsPresent(m, es[..|es| - 1], k);
    }
  }

  /** Seeding writes each absent key of the object with the object's value. */
  lemma {:induction false} SeedFillsAbsent<V>(m: map<string, Option<V>>, es: Entries<V>, i: nat)
    requires DistinctKeys(es) && i < |es| && es[i].0 !in m
    ensures es[i].0 in Seed(m, es) && Seed(m, es)[es[i].0] == es[i].1
  {
    var n := |es| - 1;
    var front := es[..n];
    if i == n {
      SeedKeys(m, front);
      assert es[i].0 !in KeysOf(front);
    } else {
      assert front[i] == es[i];
      SeedFillsAbsent(m, front, i);
    }
  }

  /** After a reset the container holds exactly the initial object. */
  lemma ResetRestoresInitial<V>(es: Entries<V>)
    requires DistinctKeys(es)
    ensures Seed(map[], es).Keys == KeysOf(es)
    ensures forall i :: 0 <= i < |es| ==> Seed(map[], es)[es[i].0] == es[i].1
  {
    SeedKeys(map[], es);
    forall i | 0 <= i < |es|
      ensures Seed(map[], es)[es[i].0] == es[i].1
    {
      SeedFillsAbsent(map[], es, i);
    }
  }

  lemma {:induction false} SetAllKeys<V>(m: map<string, Option<V>>, es: Entries<V>)
    ensures SetAll(m, es).Keys == m.Keys + (KeysOf(es) - {""})
  {
    if es != [] {
      SetAllKeys(m, es[..|es| - 1]);
      KeysOfSnoc(es, |es| - 1);
      assert es[..|es| - 1 + 1] == es;
    }
  }

  /** `setState` leaves alone every key it does not write, and the empty key. */
  lemma {:induction false} SetAllFrame<V>(m: map<string, Option<V>>, es: Entries<V>, k: string)
    requires k == "" || k !in KeysOf(es)
    ensures k in SetAll(m, es) <==> k in m
    ensures k in m ==> SetAll(m, es)[k] == m[k]
  {
    if es != [] {
      KeysOfSnoc(es, |es| - 1);
      assert es[..|es| - 1 + 1] == es;
      SetAllFrame(m, es[..|es| - 1], k);
    }
  }

  /** `setState` stores each non-empty key of the object with the object's value. */
  lemma {:induction false} SetAllWrites<V>(m: map<string, Option<V>>, es: Entries<V>, i: nat)
    requires DistinctKeys(es) && i < |es| && es[i].0 != ""
    ensures es[i].0 in SetAll(m, es) && SetAll(m, es)[es[i].0] == es[i].1
  {
    var n := |es| - 1;
    if i < n {
      assert es[..n][i] == es[i];
      SetAllWrites(m, es[..n], i);
    }
  }

  /** Set/get round trip: the snapshot after `setState` shows each written defined value. */
  lemma SetThenGet<V>(m: map<string, Option<V>>, es: Entries<V>, i: nat)
    requires DistinctKeys(es) && i < |es| && es[i].0 != ""
    ensures es[i].1.Some? ==> es[i].0 in Defined(SetAll(m, es)) && Defined(SetAll(m, es))[es[i].0] == es[i].1.value
    ensures es[i].1.None? ==> es[i].0 !in Defined(SetAll(m, es))
  {
    SetAllWrites(m, es, i);
  }

  /** Deleting by key and by a record holding that key give the same container. */
  lemma DeleteSelectorsAgree<V>(m: map<string, Option<V>>, key: string, ignored: Option<V>)
    ensures m - {key} == m - KeysOf([(key, ignored)])
    ensures key !in m ==> m - {key} == m
  {
    var es := [(key, ignored)];
    assert es[0].0 == key;
    assert KeysOf(es) == {key};
  }

  /** A disposed listener receives nothing from later broadcasts; the others still do, in order. */
  lemma DisposedListenerSilent<V>(ls: seq<ListenerId>, l: ListenerId, diff: map<string, V>)
    ensures forall d :: d in Broadcast(Without(ls, l), diff) ==> d.listener != l
    ensures forall x :: x in ls && x != l ==> Delivery(x, diff) in Broadcast(Without(ls, l), diff)
  {
    var r := Without(ls, l);
    forall x | x in ls && x != l
      ensures Delivery(x, diff) in Broadcast(r, diff)
    {
      assert multiset(r)[x] == multiset(ls)[x] > 0;
      assert x in r;
      var j :| 0 <= j < |r| && r[j] == x;
      assert Broadcast(r, diff)[j] == Delivery(x, diff);
    }
  }

  /** `on` followed by its disposer leaves the event's list as `off` would have made it. */
  lemma OnThenDispose(reg: map<string, seq<ListenerId>>, event: string, l: ListenerId)
    ensures Without(ListenersOf(reg, event) + [l], l) == Without(ListenersOf(reg, event), l)
    ensures l !in ListenersOf(reg, event) ==> Without(ListenersOf(reg, event) + [l], l) == ListenersOf(reg, event)
  {
    WithoutAppended(ListenersOf(reg, event), l);
  }
}
