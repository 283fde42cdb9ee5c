/**
 * The registry of synced.ts: one document per room, and one `Storage` per
 * storage id, created on first connection and reused afterwards.
 *
 * The document and its network session are not modelled; the content the
 * replication engine holds for a container when a storage is first built is
 * the parameter `existing` of `ConnectStorage`.
 */
module Synced {
  import opened Wrappers
  import opened KeyedStorage

  class SyncedStorage<V> {
    const roomId: string
    /** The cache of storages, by storage id. */
    var storage: map<string, Storage<V>>

    /** Each cached storage was built for this room and for the id it is cached under. */
    ghost predicate Valid()
      reads this
    {
      forall id :: id in storage ==>
        storage[id].roomId == roomId && storage[id].storageId == id &&
        storage[id].name == ContainerName(roomId, id)
    }

    constructor (roomId: string)
      ensures Valid()
      ensures this.roomId == roomId && storage == map[]
    {
      this.roomId := roomId;
      storage := map[];
    }

    /**
     * Returns the cached storage for `storageId`; if there is none, builds
     * one bound to `ContainerName(roomId, storageId)` and caches it. The
     * `initialState` of a later call for a cached id is ignored.
     */
    method ConnectStorage(storageId: string, initialState: Entries<V>, existing: map<string, Option<V>>)
      returns (s: Storage<V>)
      requires Valid()
      modifies this
      ensures Valid()
      ensures storage.Keys == old(storage).Keys + {storageId}
      ensures forall id :: id in old(storage) ==> storage[id] == old(storage)[id]
      ensures storage[storageId] == s
      ensures s.name == ContainerName(roomId, storageId)
      ensures storageId in old(storage) ==> s == old(storage)[storageId] && storage == old(storage)
      ensures storageId !in old(storage) ==>
        && fresh(s)
        && s.initialState == initialState
        && s.state == (if |existing| == 0 then Seed(map[], initialState) else existing)
        && s.listeners == map[] && s.log == []
    {
      if storageId in storage {
        s := storage[storageId];
      } else {
        s := new Storage(roomId, storageId, initialState, existing);
        storage := storage[storageId := s];
      }
    }
  }

  /** Distinct cached storages are bound to distinct containers and are distinct objects. */
  lemma DistinctContainers<V>(r: SyncedStorage<V>, a: string, b: string)
    requires r.Valid() && a in r.storage && b in r.storage && a != b
    ensures r.storage[a].name != r.storage[b].name
    ensures r.storage[a] != r.storage[b]
  {
    ContainerNameInjective(r.roomId, a, b);
  }

  /** JSON-like values for the scenarios below. */
  datatype Json = Bool(b: bool) | List(items: seq<Json>) | Text(s: string)

  /**
   * Two connections with the same id share one storage: a write through the
   * first handle is seen through the second, whose initial state is ignored.
   * State `{ban: false, raiseHand: []}`; `setState({ban: true})`, then
   * `deleteState("ban")`.
   */
  method SharedHandleScenario()
  {
    var registry := new SyncedStorage<Json>("testRoom");
    var init := [("ban", Some(Bool(false))), ("raiseHand", Some(List([])))];
    var first := registry.ConnectStorage("classroom", init, map[]);
    var second := registry.ConnectStorage("classroom", [("mute", Some(Bool(true)))], map[]);
    assert first == second;
    assert Seed(map[], init[..1]) == map["ban" := Some(Bool(false))];
    assert init[..2] == init;
    assert first.state == map["ban" := Some(Bool(false)), "raiseHand" := Some(List([]))];

    var update := [("ban", Some(Bool(true)))];
    first.SetState(update);
    assert update[..0] == [];
    var seen := second.GetState();
    assert seen == map["ban" := Bool(true), "raiseHand" := List([])];

    first.DeleteByKey("ban");
    seen := second.GetState();
    assert seen == map["raiseHand" := List([])];
  }
}
