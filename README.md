# synced-core, modelled in Dafny

synced-core lets several clients share key/value state. The state lives in a
replicated document, one document per room. The model covers the three
classes a client works with:

- `Storage` (storage.ts) is one named keyed container in the room's document.
  It offers read, write, seed, reset and delete operations. It also keeps a
  small event registry, and its `stateChanged` listeners receive the changed
  keys' new values after every change.
- `SyncedStorage` (synced.ts) is the per-room registry. It creates one
  `Storage` per storage id on first connection and returns the same object
  on every later connection.
- `TlDrawSyncedStorage` (tldraw-synced.ts) is a record store, keyed by each
  record's `id`, that lives in one ordered key/value array per room. Its
  change observers receive a diff: the records to put and the ids to remove.

The files are organised as follows:

- `wrappers.dfy` holds `Option`.
- `filter.dfy` models `Array.prototype.filter(l => l !== x)`.
- `storage.dfy` holds module `KeyedStorage`, the class and its specification functions. Module `KeyedStorageProperties`, in the same file, holds the lemmas about them.
- `synced.dfy` holds module `Synced`.
- `tldraw_synced.dfy` holds module `TlDrawSynced` and module `TlDrawSyncedProperties`.

Modelling choices:

- A container's content is a `map<string, Option<V>>`. A key can hold `undefined`, which is `None`. `getState` omits such keys.
- A JavaScript object passed as a state is a sequence of `(key, value)` pairs in `Object.entries` order.
- Listeners and callbacks are opaque handles (`nat`).
- What they receive is recorded in a ghost `log` of deliveries. The model relies on the replication engine firing observers synchronously, once per write outside a transaction.
- So `set(k, v)` produces one change event for `{k}`.
- `delete(k)` of a present key produces one event for `{k}`. Its diff is empty, because the key has no value any more.
- `clear()` of a non-empty map produces one event whose diff is empty.
- The record store is a sequence of `(id, record)` entries with distinct ids.
- Writing an existing id replaces its entry. Writing a new id appends an entry. Deleting an id removes its entry.
- Each write or effective delete delivers one change batch to every registered observer.
- A value passed to the record store's operations is either a record (`Single`) or a list of records (`Group`). `record.id` of a list is `undefined`, and `record.length` of a record is `undefined`.

## Model

| member | source | states |
|---|---|---|
| Filter.Without | storage.ts:136 | every occurrence of `x` goes, the other elements keep their multiplicity, and a list without `x` is unchanged |
| Filter.WithoutAppend | storage.ts:148 | filtering a concatenation filters each part, so the survivors keep their order |
| Filter.WithoutAppended | storage.ts:135-137 | filtering out a listener just appended to a list gives that list filtered |
| KeyedStorage.ContainerName | storage.ts:27 | the container is named `synced-<roomId>-<storageId>`: that prefix, then the storage id as suffix |
| KeyedStorage.ContainerNameInjective | storage.ts:27 | within one room, distinct storage ids give distinct containers |
| KeyedStorage.Storage.constructor | storage.ts:26-36 | binds the named container and seeds it with the initial state only when the container is empty; no listeners yet |
| KeyedStorage.Storage.InitializeState | storage.ts:50-56 | the new state is the old one with each initial entry added only where its key was absent; each such write notifies the `stateChanged` listeners with that key's value |
| KeyedStorage.Storage.GetState | storage.ts:63-71 | the result holds exactly the keys whose value is defined, each with its stored value |
| KeyedStorage.Storage.SetState | storage.ts:78-84 | every entry with a non-empty key is written in order, overwriting; entries with the empty key are skipped; each write notifies the listeners with `{key: value}` |
| KeyedStorage.Storage.ResetState | storage.ts:89-92 | the state becomes the seeded initial state; a non-empty old state fires one event with an empty diff first |
| KeyedStorage.Storage.DeleteByKey | storage.ts:107-112 | a string argument removes that key; an absent key changes nothing and fires nothing |
| KeyedStorage.Storage.DeleteByFields | storage.ts:113-120 | an object argument removes every one of its keys, whatever its value; one empty-diff event per key that was present |
| KeyedStorage.Storage.On | storage.ts:129-138 | the listener is appended to the event's list, created empty if missing; the returned disposer names that event and that listener |
| KeyedStorage.Storage.Dispose | storage.ts:135-137 | the disposer removes every occurrence of its listener from its event's list and leaves every other event alone |
| KeyedStorage.Storage.Off | storage.ts:146-150 | removes every occurrence of the listener from a known event; an unknown event changes nothing |
| KeyedStorage.Storage.Emit | storage.ts:158-162 | every listener of the event receives the arguments, in registration order; an unknown event delivers nothing |
| KeyedStorage.Storage.ChangedDiff | storage.ts:170-177 | the diff holds exactly the changed keys whose current value is defined, each with that value |
| KeyedStorage.Storage.HandleStateChange | storage.ts:169-180 | every `stateChanged` listener receives the diff of the changed keys |
| KeyedStorage.WriteDiffObserved | storage.ts:29-31 | the change event of a single write `set(k, v)` gives the diff `{k: v}`, or `{}` when `v` is undefined |
| KeyedStorageProperties.SeedKeys | storage.ts:50-56 | seeding adds exactly the initial keys |
| KeyedStorageProperties.SeedKeepsPresent | storage.ts:52 | seeding never overwrites a key that is already present |
| KeyedStorageProperties.SeedFillsAbsent | storage.ts:51-54 | an absent initial key receives its initial value |
| KeyedStorageProperties.ResetRestoresInitial | storage.ts:89-92 | after a reset, the state holds exactly the initial keys with their initial values |
| KeyedStorageProperties.SetAllKeys | storage.ts:78-84 | writing adds exactly the non-empty keys of the new state |
| KeyedStorageProperties.SetAllFrame | storage.ts:80 | a key that is empty or not in the new state is untouched by a write |
| KeyedStorageProperties.SetAllWrites | storage.ts:79-81 | every non-empty key of the new state holds its new value afterwards |
| KeyedStorageProperties.SetThenGet | test/synced.test.ts:82-97 | after `setState`, `getState` shows each written value, and hides a key written `undefined` |
| KeyedStorageProperties.DeleteSelectorsAgree | storage.ts:107-120 | deleting by key `k` and deleting by an object with the single key `k` leave the same state; an absent key leaves it unchanged |
| KeyedStorageProperties.DisposedListenerSilent | storage.ts:135-137 | after disposal, no delivery reaches the removed listener, and every other listener is still served |
| KeyedStorageProperties.OnThenDispose | storage.ts:129-138 | registering then disposing a listener leaves its event's list as before, when it was not there already |
| Synced.SyncedStorage.constructor | synced.ts:22-26 | a new registry for the room has no storages |
| Synced.SyncedStorage.ConnectStorage | synced.ts:36-43 | a cached id returns the same storage and leaves the cache unchanged; an uncached id gets a fresh storage for this room, bound to `synced-<room>-<id>`, seeded from its initial state, and cached under that id |
| Synced.DistinctContainers | synced.ts:14 | two cached ids have distinct storages bound to distinct containers |
| TlDrawSynced.Lookup | tldraw-synced.ts:57 | a key is found exactly when the store holds an entry for it |
| TlDrawSynced.PutProperties | tldraw-synced.ts:92 | after `set(k, r)`, `k` maps to `r`, every other key is unchanged, `k` is added to the keys, and ids stay distinct |
| TlDrawSynced.PutShape | tldraw-synced.ts:92 | overwriting keeps the store's size; a new id is appended at the end |
| TlDrawSynced.RemoveProperties | tldraw-synced.ts:80 | after `delete(k)`, `k` is gone, every other key is unchanged, and deleting an absent key changes nothing |
| TlDrawSynced.BatchDiff | tldraw-synced.ts:121-138 | a batch of `n` changes gives `n` diff entries in total |
| TlDrawSynced.OnChange | tldraw-synced.ts:120-140 | the callback is called exactly when the batch is non-empty, and then with the batch's diff |
| TlDrawSynced.DropCallback | tldraw-synced.ts:150 | corrected: the observers left hold every observer for other callbacks and none for the dropped one |
| TlDrawSynced.TlDrawSyncedStorage.constructor | tldraw-synced.ts:30-39 | binds the array `synced-<roomId>` and seeds it with the initial records only when it is empty |
| TlDrawSynced.TlDrawSyncedStorage.InitializeState | tldraw-synced.ts:55-61 | each initial record is written under its id only where that id is absent, notifying the observers of each write |
| TlDrawSynced.TlDrawSyncedStorage.GetState | tldraw-synced.ts:68-70 | returns the stored entries, with distinct ids |
| TlDrawSynced.TlDrawSyncedStorage.DeleteState | tldraw-synced.ts:77-82 | deletes, in order, the truthy id of every record value; each effective delete delivers `{toRemove: [id]}` |
| TlDrawSynced.TlDrawSyncedStorage.DeleteValue | tldraw-synced.ts:78-80 | one value: a record with a truthy id is deleted; a record with an empty id or a list is skipped |
| TlDrawSynced.TlDrawSyncedStorage.SetState | tldraw-synced.ts:89-101 | writes, in order, every record with a truthy id and every item of every non-empty list; each write delivers `{toPut: [record]}` |
| TlDrawSynced.TlDrawSyncedStorage.SetValue | tldraw-synced.ts:90-100 | one value: a record written under its id, or each list item written under its own id |
| TlDrawSynced.TlDrawSyncedStorage.Set | tldraw-synced.ts:92 | one write stores the record under its id and delivers an add or update batch of that id |
| TlDrawSynced.TlDrawSyncedStorage.Del | tldraw-synced.ts:80 | one delete removes the id; a present id delivers a delete batch, an absent one delivers nothing |
| TlDrawSynced.TlDrawSyncedStorage.OnStateChanged | tldraw-synced.ts:108-143 | registers a new observer for the callback after the existing ones |
| TlDrawSynced.TlDrawSyncedStorage.OnStateOff | tldraw-synced.ts:150-185 | as written: the observers are unchanged, because the function handed to `off` was never registered |
| TlDrawSynced.TlDrawSyncedStorage.Unsubscribe | tldraw-synced.ts:150 | corrected: every observer registered for the callback is removed, and no other observer |
| TlDrawSynced.TlDrawSyncedStorage.Dispatch | tldraw-synced.ts:119-140 | each observer, in registration order, calls its callback with the batch's diff; a missing or empty batch calls nothing |
| TlDrawSynced.TlDrawSyncedStorage.ComputeDiff | tldraw-synced.ts:121-138 | the diff built by iterating over the batch equals the batch diff, with as many entries as changes |
| TlDrawSyncedProperties.PutAllLookup | tldraw-synced.ts:89-101 | after a sequence of writes, each id holds the last record written with it, or its old record if none was |
| TlDrawSyncedProperties.PutAllDistinct | tldraw-synced.ts:89-101 | writing keeps one entry per id and adds exactly the written ids |
| TlDrawSyncedProperties.LastWithDistinct | tldraw-synced.ts:96-98 | among records with distinct ids, each is the last one written under its id |
| TlDrawSyncedProperties.SetStateStoresRecord | tldraw-synced.ts:91-93 | a record value with a truthy id is stored under that id, unless a later value writes the same id |
| TlDrawSyncedProperties.SetStateStoresItem | tldraw-synced.ts:95-99 | each item of a list value is stored under its own id, unless a later value writes the same id |
| TlDrawSyncedProperties.RemoveAllLookup | tldraw-synced.ts:77-82 | after deleting a list of ids, exactly those ids are gone and every other id is unchanged |
| TlDrawSyncedProperties.DeleteIdsExactly | tldraw-synced.ts:78-79 | the ids deleted are exactly the truthy ids of the record values |
| TlDrawSyncedProperties.DeleteStateEffect | tldraw-synced.ts:77-82 | `deleteState` removes a truthy id of a record value, and keeps every id that no record value carries |
| TlDrawSyncedProperties.SeedKeepsPresent | tldraw-synced.ts:57 | seeding never overwrites an id that is already present |
| TlDrawSyncedProperties.SeedKeys | tldraw-synced.ts:55-61 | seeding adds exactly the initial ids |
| TlDrawSyncedProperties.SeedFillsAbsent | tldraw-synced.ts:56-59 | an absent initial id receives its initial record |
| TlDrawSyncedProperties.BatchDiffAppend | tldraw-synced.ts:125-138 | the diff of a concatenated batch concatenates the diffs: batch order is kept in both lists |
| TlDrawSyncedProperties.BatchDiffSingle | tldraw-synced.ts:126-136 | an add or an update puts the current record under its key; a delete removes its key |
| TlDrawSyncedProperties.NotifyAt | tldraw-synced.ts:139 | one call per observer, in registration order, all with the same diff |
| TlDrawSyncedProperties.DropCallbackSilent | tldraw-synced.ts:150 | after the corrected unsubscription, no delivery reaches the callback, and every other callback is still called |

## Left out

- The replication engine is not modelled: Yjs documents, merging of concurrent edits, and the WebSocket transport. The content a container already holds when it is bound is the constructors' `existing` parameter.
- The array placement of the record store on overwrite is an ordering choice of the engine and is not modelled. The model replaces the entry in place.
- Transactions are not modelled. The batch the engine delivers for a remote change is the input of `Dispatch` and `HandleStateChange`.
- The `transaction` argument of the record store's callback is not passed.
- `SyncedStorage.dispose` and `TlDrawSyncedStorage.dispose` (synced.ts:48-51, tldraw-synced.ts:190-193) are left out. They only disconnect the transport and destroy the document.
- The `room` getter (tldraw-synced.ts:46-48) is left out. It only returns the transport.
- The `state` getter (storage.ts:41-43) is `GetState` under another name.
- Values are opaque (`V` and `B`), and JSON typing is not modelled.
- A record store value is a record or a list of records. The source's behaviour on other JSON values is not modelled. For a non-empty string, `record.id` is `undefined`, so tldraw-synced.ts:91 skips the write. Then `record.length > 0` holds at tldraw-synced.ts:95, and tldraw-synced.ts:96 throws because a string has no `forEach`. That leaves `setState` stopped partway, after writing the values that come before the string.
- TlDrawSynced.TlDrawSyncedStorage.constructor: the initial state is a sequence of records. A list inside the initial state is not modelled (the source would read `undefined` as its id).
- TlDrawSynced.TlDrawSyncedStorage.DeleteState: deleting an absent id is modelled as a no-op with no event.
- Stored values are treated as immutable. The replication engine stores a plain object or array by reference, and the model does not capture that aliasing. That one object is the value seeded from `initialState` (storage.ts:53, tldraw-synced.ts:58), the value `getState` hands out (storage.ts:67, tldraw-synced.ts:69) and the value `resetState` re-seeds (storage.ts:91). A caller that mutates such a value in place therefore changes the stored state and the value a reset restores, and no event fires. `ResetRestoresInitial` holds without a condition only under this immutability.
- KeyedStorage.Storage.On, KeyedStorage.Storage.Off: event names inherited from `Object.prototype`, such as `constructor`, `toString` or `__proto__`, are not modelled. The registry is a plain object (storage.ts:15), so for those names `this.listeners[event]` is already truthy. `on` then throws at storage.ts:133 and `off` throws at storage.ts:148. The model treats every name as an ordinary key.
- KeyedStorage.Storage.GetState, KeyedStorage.Storage.ChangedDiff: a stored key `__proto__` is not modelled. Assigning it at storage.ts:67 or storage.ts:175 calls the prototype setter, so it never becomes an own key of the snapshot or of the diff. `Defined` and `DiffOf` keep it as an ordinary key.
- Reentrancy is not modelled: a listener or callback that writes back to the storage while it is called.
- KeyedStorage.Storage.Dispose: requires that the disposer's event is registered, as it is after the `on` that returned it. The source would throw otherwise.
- The copies under `dist/` are older builds and are not the modelled source.
- The scenario methods have no contract of their own. In synced.dfy and tldraw_synced.dfy they replay the repository's tests: `Synced.SharedHandleScenario`, `TlDrawSyncedProperties.UpdateGetScenario`, `TlDrawSyncedProperties.DeleteScenario` and `TlDrawSyncedProperties.StateChangeScenario`. Their assertions are checked statically.
- `Emit` with arguments other than one diff is not modelled. The only emitter passes a diff.

## Findings

| source | as written | input that shows it | evidently intended | confidence | as-written member | corrected member |
|---|---|---|---|---|---|---|
| tldraw-synced.ts:150-185 | `onStateOff` passes `off` a newly created arrow function, never the one `onStateChanged` registered, so no observer is removed | `onStateChanged(cb); onStateOff(cb); setState({a: {id: "a"}})` still calls `cb` (method `TlDrawSyncedProperties.OnStateOffScenario`) | `onStateOff(cb)` stops `cb` from being called (method `TlDrawSyncedProperties.UnsubscribeScenario`) | not executed | TlDrawSynced.TlDrawSyncedStorage.OnStateOff | TlDrawSynced.TlDrawSyncedStorage.Unsubscribe |
