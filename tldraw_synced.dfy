/**
 * Id-keyed record state (tldraw-synced.ts) over a keyed sequence container.
 *
 * The container is an ordered sequence of `(key, record)` entries with at
 * most one entry per key: `Put` overwrites an existing key where it stands
 * and appends a new one at the end, `Remove` drops the key's entry and keeps
 * the order of the others. Every write the storage makes is reported to the
 * change observers synchronously as a one-entry change batch, and every
 * callback call is recorded, in order, in the ghost `log`.
 *
 * A record whose `id` is falsy (missing, `""`, ...) is a record whose `id`
 * is `""`. A value of the objects given to `setState` and `deleteState` is
 * either one record or a list of records.
 */
module TlDrawSynced {
  import opened Wrappers
  import opened Filter

  datatype Record<B> = Record(id: string, fields: B)

  /** A value of an object passed to `setState`/`deleteState`. */
  datatype Value<B> = Single(record: Record<B>) | Group(items: seq<Record<B>>)

  /** The keyed sequence: entries `(key, record)` in container order. */
  type Store<B> = seq<(string, Record<B>)>

  datatype Action = Add | Update | Delete

  /** A change batch: each changed key with its action tag, in batch order. */
  type Batch = seq<(string, Action)>

  datatype Diff<B> = Diff(toPut: seq<Record<B>>, toRemove: seq<string>)

  /** A callback function given by the caller, identified by a handle. */
  type CallbackId = nat

  /** A change observer registered with the container: a closure of identity `ref` around `callback`. */
  datatype Handler = Handler(ref: nat, callback: CallbackId)

  /** One call of `callback` with `diff`. */
  datatype Call<B> = Call(callback: CallbackId, diff: Diff<B>)

  // ---------------------------------------------------------------------
  // The keyed sequence

  function Keys<B>(s: Store<B>): set<string>
  {
    if s == [] then {} else {s[0].0} + Keys(s[1..])
  }

  /** At most one entry per key. */
  predicate DistinctKeys<B>(s: Store<B>)
  {
    s == [] || (s[0].0 !in Keys(s[1..]) && DistinctKeys(s[1..]))
  }

  function Lookup<B>(s: Store<B>, k: string): (r: Option<Record<B>>)
    ensures r.Some? <==> k in Keys(s)
  {
    if s == [] then None
    else if s[0].0 == k then Some(s[0].1)
    else Lookup(s[1..], k)
  }

  /** `set(k, r)`: overwrites the entry of `k` where it stands, or appends one. */
  function Put<B>(s: Store<B>, k: string, r: Record<B>): Store<B>
  {
    if s == [] then [(k, r)]
    else if s[0].0 == k then [(k, r)] + s[1..]
    else [s[0]] + Put(s[1..], k, r)
  }

  /** `delete(k)`: drops the entries of `k`, keeping the others in order. */
  function Remove<B>(s: Store<B>, k: string): Store<B>
  {
    if s == [] then []
    else if s[0].0 == k then Remove(s[1..], k)
    else [s[0]] + Remove(s[1..], k)
  }

  /** After `Put(s, k, r)`, `k` holds `r`, every other key holds what it held, and keys stay distinct. */
  lemma {:induction false} PutProperties<B>(s: Store<B>, k: string, r: Record<B>)
    ensures Lookup(Put(s, k, r), k) == Some(r)
    ensures forall k' :: k' != k ==> Lookup(Put(s, k, r), k') == Lookup(s, k')
    ensures Keys(Put(s, k, r)) == Keys(s) + {k}
    ensures DistinctKeys(s) ==> DistinctKeys(Put(s, k, r))
  {
    if s != [] && s[0].0 != k {
      PutProperties(s[1..], k, r);
      assert Put(s, k, r)[1..] == Put(s[1..], k, r);
    }
  }

  /** An existing key is overwritten where it stands; a new key is appended at the end. */
  lemma {:induction false} PutShape<B>(s: Store<B>, k: string, r: Record<B>)
    ensures k in Keys(s) ==> |Put(s, k, r)| == |s|
    ensures k !in Keys(s) ==> Put(s, k, r) == s + [(k, r)]
  {
    if s != [] && s[0].0 != k {
      PutShape(s[1..], k, r);
      assert s == [s[0]] + s[1..];
    }
  }

  /** After `Remove(s, k)`, `k` is gone, every other key holds what it held, and keys stay distinct. */
  lemma {:induction false} RemoveProperties<B>(s: Store<B>, k: string)
    ensures Lookup(Remove(s, k), k) == None
    ensures forall k' :: k' != k ==> Lookup(Remove(s, k), k') == Lookup(s, k')
    ensures Keys(Remove(s, k)) == Keys(s) - {k}
    ensures DistinctKeys(s) ==> DistinctKeys(Remove(s, k))
    ensures k !in Keys(s) ==> Remove(s, k) == s
  {
    if s != [] {
      RemoveProperties(s[1..], k);
      if s[0].0 != k {
        assert Remove(s, k)[1..] == Remove(s[1..], k);
        assert s == [s[0]] + s[1..];
      }
    }
  }

  // ---------------------------------------------------------------------
  // What the operations write and delete

  /** The records `setState` writes for one value: a record with a truthy id, or each item of a non-empty list. */
  function ValueWrites<B>(v: Value<B>): seq<Record<B>>
  {
    match v
    case Single(r) => if r.id != "" then [r] else []
    case Group(items) => if |items| > 0 then items else []
  }

  /** The records `setState(vs)` writes, in order: nested lists are flattened. */
  function Writes<B>(vs: seq<Value<B>>): seq<Record<B>>
  {
    if vs == [] then [] else Writes(vs[..|vs| - 1]) + ValueWrites(vs[|vs| - 1])
  }

  /** The id one value of `deleteState` deletes: that of a record with a truthy id; a list has no id. */
  function ValueDeletes<B>(v: Value<B>): seq<string>
  {
    if v.Single? && v.record.id != "" then [v.record.id] else []
  }

  /** The ids `deleteState(vs)` deletes, in order. */
  function DeleteIds<B>(vs: seq<Value<B>>): seq<string>
  {
    if vs == [] then [] else DeleteIds(vs[..|vs| - 1]) + ValueDeletes(vs[|vs| - 1])
  }

  /** The container after writing each record of `rs` under its id. */
  function PutAll<B>(s: Store<B>, rs: seq<Record<B>>): Store<B>
  {
    if rs == [] then s else var r := rs[|rs| - 1]; Put(PutAll(s, rs[..|rs| - 1]), r.id, r)
  }

  /** The container after deleting each key of `ks`. */
  function RemoveAll<B>(s: Store<B>, ks: seq<string>): Store<B>
  {
    if ks == [] then s else Remove(RemoveAll(s, ks[..|ks| - 1]), ks[|ks| - 1])
  }

  /** The container after `initializeState(rs)`: a record is written only if its id is absent. */
  function Seed<B>(s: Store<B>, rs: seq<Record<B>>): Store<B>
  {
    if rs == [] then s
    else
      var s' := Seed(s, rs[..|rs| - 1]);
      var r := rs[|rs| - 1];
      if r.id in Keys(s') then s' else Put(s', r.id, r)
  }

  /** The last record of `rs` with id `k`, if any: a reference reading of what `PutAll` leaves under `k`. */
  function LastWith<B>(rs: seq<Record<B>>, k: string): Option<Record<B>>
  {
    if rs == [] then None
    else if rs[|rs| - 1].id == k then Some(rs[|rs| - 1])
    else LastWith(rs[..|rs| - 1], k)
  }

  predicate DistinctIds<B>(rs: seq<Record<B>>)
  {
    forall i, j :: 0 <= i < j < |rs| ==> rs[i].id != rs[j].id
  }

  // ---------------------------------------------------------------------
  // The change handler

  /** The engine promises that the key of every add or update is present when the batch is delivered. */
  predicate WellFormed<B>(changes: Batch, s: Store<B>)
  {
    forall i :: 0 <= i < |changes| && changes[i].1 != Delete ==> changes[i].0 in Keys(s)
  }

  /**
   * The diff of a change batch, in batch order: each add or update key gives
   * its current record to `toPut`, each delete key goes to `toRemove`.
   */
  function BatchDiff<B>(changes: Batch, s: Store<B>): (d: Diff<B>)
    requires WellFormed(changes, s)
    ensures |d.toPut| + |d.toRemove| == |changes|
  {
    if changes == [] then Diff([], [])
    else
      var d := BatchDiff(changes[..|changes| - 1], s);
      var (k, action) := changes[|changes| - 1];
      if action == Delete then Diff(d.toPut, d.toRemove + [k])
      else Diff(d.toPut + [Lookup(s, k).value], d.toRemove)
  }

  /** What one registered observer passes to its callback: nothing for a missing or empty batch. */
  function OnChange<B>(changes: Option<Batch>, s: Store<B>): (r: Option<Diff<B>>)
    requires changes.Some? ==> WellFormed(changes.value, s)
    ensures r.None? <==> changes.None? || changes.value == []
    ensures r.Some? ==> r.value == BatchDiff(changes.value, s)
  {
    if changes.None? || |changes.value| == 0 then None else Some(BatchDiff(changes.value, s))
  }

  /** The callback calls the observers `hs` make, in registration order. */
  function Notify<B>(hs: seq<Handler>, d: Option<Diff<B>>): seq<Call<B>>
  {
    if d.None? || hs == [] then [] else Notify(hs[..|hs| - 1], d) + [Call(hs[|hs| - 1].callback, d.value)]
  }

  /** The calls made while `setState` or `initializeState` writes `rs`, one batch per write. */
  function PutLog<B>(hs: seq<Handler>, rs: seq<Record<B>>): seq<Call<B>>
  {
    if rs == [] then [] else PutLog(hs, rs[..|rs| - 1]) + Notify(hs, Some(Diff([rs[|rs| - 1]], [])))
  }

  /** The calls made by `initializeState(rs)` on container `s`: only the absent ids are written. */
  function SeedLog<B>(hs: seq<Handler>, s: Store<B>, rs: seq<Record<B>>): seq<Call<B>>
  {
    if rs == [] then []
    else
      var r := rs[|rs| - 1];
      SeedLog(hs, s, rs[..|rs| - 1]) + if r.id in Keys(Seed(s, rs[..|rs| - 1])) then [] else Notify(hs, Some(Diff([r], [])))
  }

  /** The calls made by deleting `ks` from `s`: only the ids present at that point are deleted. */
  function DeleteLog<B>(hs: seq<Handler>, s: Store<B>, ks: seq<string>): seq<Call<B>>
  {
    if ks == [] then []
    else
      var k := ks[|ks| - 1];
      DeleteLog(hs, s, ks[..|ks| - 1]) + if k in Keys(RemoveAll(s, ks[..|ks| - 1])) then Notify(hs, Some(Diff([], [k]))) else []
  }

  /** The observers left after dropping every one whose callback is `c`. */
  function DropCallback(hs: seq<Handler>, c: CallbackId): (r: seq<Handler>)
    ensures forall h :: h in r ==> h in hs && h.callback != c
    ensures forall h :: h in hs && h.callback != c ==> h in r
  {
    if hs == [] then []
    else (if hs[0].callback == c then [] else [hs[0]]) + DropCallback(hs[1..], c)
  }

  // ---------------------------------------------------------------------
  // The storage object

  class TlDrawSyncedStorage<B> {
    /** The name of the keyed sequence in the document. */
    const name: string
    /** The keyed sequence's current content. */
    var store: Store<B>
    /** The container's change observers, in registration order. */
    var handlers: seq<Handler>
    /** The identity the next closure gets. */
    var nextRef: nat
    /** Every callback call made so far, in order. */
    ghost var log: seq<Call<B>>

    ghost predicate Valid()
      reads this
    {
      && DistinctKeys(store)
      && forall i :: 0 <= i < |handlers| ==> handlers[i].ref < nextRef
    }

    /**
     * Binds to the sequence `synced-<roomId>`, whose content the engine
     * currently holds as `existing`, and seeds it from the values of
     * `initialState` only when it is empty.
     */
    constructor (roomId: string, initialState: seq<Record<B>>, existing: Store<B>)
      requires DistinctKeys(existing)
      ensures Valid()
      ensures name == "synced-" + roomId
      ensures store == if |existing| == 0 then Seed([], initialState) else existing
      ensures handlers == [] && log == []
    {
      name := "synced-" + roomId;
      store := existing;
      handlers := [];
      nextRef := 0;
      log := [];
      new;
      if |existing| == 0 {
        InitializeState(initialState);
        SeedLogSilent([], initialState);
      }
    }

    /** Writes each record whose id is absent; records already present are kept. */
    method InitializeState(rs: seq<Record<B>>)
      requires Valid()
      modifies this`store, this`log
      ensures Valid()
      ensures store == Seed(old(store), rs)
      ensures log == old(log) + SeedLog(handlers, old(store), rs)
    {
      var i := 0;
      while i < |rs|
        invariant 0 <= i <= |rs|
        invariant Valid()
        invariant store == Seed(old(store), rs[..i])
        invariant log == old(log) + SeedLog(handlers, old(store), rs[..i])
      {
        assert rs[..i + 1][..i] == rs[..i];
        var r := rs[i];
        if r.id !in Keys(store) {
          Set(r);
        }
        i := i + 1;
      }
      assert rs[..i] == rs;
    }

    /** The ordered entries of the container. */
    method GetState() returns (r: Store<B>)
      requires Valid()
      ensures r == store
      ensures DistinctKeys(r)
    {
      r := store;
    }

    /** Deletes the id of every record with a truthy id; list values and falsy ids are skipped. */
    method DeleteState(vs: seq<Value<B>>)
      requires Valid()
      modifies this`store, this`log
      ensures Valid()
      ensures store == RemoveAll(old(store), DeleteIds(vs))
      ensures log == old(log) + DeleteLog(handlers, old(store), DeleteIds(vs))
    {
      var i := 0;
      while i < |vs|
        invariant 0 <= i <= |vs|
        invariant Valid()
        invariant store == RemoveAll(old(store), DeleteIds(vs[..i]))
        invariant log == old(log) + DeleteLog(handlers, old(store), DeleteIds(vs[..i]))
      {
        SnocPrefix(vs, i);
        AppendDeletes(old(store), handlers, DeleteIds(vs[..i]), ValueDeletes(vs[i]));
        Assoc(old(log), DeleteLog(handlers, old(store), DeleteIds(vs[..i])),
              DeleteLog(handlers, RemoveAll(old(store), DeleteIds(vs[..i])), ValueDeletes(vs[i])));
        DeleteValue(vs[i]);
        i := i + 1;
      }
      assert vs[..i] == vs;
    }

    /** One value of `deleteState`: the id of a record with a truthy id is deleted; anything else is skipped. */
    method DeleteValue(v: Value<B>)
      requires Valid()
      modifies this`store, this`log
      ensures Valid()
      ensures store == RemoveAll(old(store), ValueDeletes(v))
      ensures log == old(log) + DeleteLog(handlers, old(store), ValueDeletes(v))
    {
      if v.Group? || v.record.id == "" {
        return;
      }
      assert [v.record.id][..0] == [];
      Del(v.record.id);
    }

    /** Writes every record with a truthy id, and every item of every non-empty list, under its id. */
    method SetState(vs: seq<Value<B>>)
      requires Valid()
      modifies this`store, this`log
      ensures Valid()
      ensures store == PutAll(old(store), Writes(vs))
      ensures log == old(log) + PutLog(handlers, Writes(vs))
    {
      var i := 0;
      while i < |vs|
        invariant 0 <= i <= |vs|
        invariant Valid()
        invariant store == PutAll(old(store), Writes(vs[..i]))
        invariant log == old(log) + PutLog(handlers, Writes(vs[..i]))
      {
        SnocPrefix(vs, i);
        AppendWrites(old(store), handlers, Writes(vs[..i]), ValueWrites(vs[i]));
        Assoc(old(log), PutLog(handlers, Writes(vs[..i])), PutLog(handlers, ValueWrites(vs[i])));
        SetValue(vs[i]);
        i := i + 1;
      }
      assert vs[..i] == vs;
    }

    /** One value of `setState`: a record with a truthy id is written; so is each item of a non-empty list. */
    method SetValue(v: Value<B>)
      requires Valid()
      modifies this`store, this`log
      ensures Valid()
      ensures store == PutAll(old(store), ValueWrites(v))
      ensures log == old(log) + PutLog(handlers, ValueWrites(v))
    {
      match v {
        case Single(r) =>
          if r.id != "" {
            assert [r][..0] == [];
            Set(r);
          }
        case Group(items) =>
          if |items| > 0 {
            var j := 0;
            while j < |items|
              invariant 0 <= j <= |items|
              invariant Valid()
              invariant store == PutAll(old(store), items[..j])
              invariant log == old(log) + PutLog(handlers, items[..j])
            {
              assert items[..j + 1][..j] == items[..j];
              Set(items[j]);
              j := j + 1;
            }
            assert items[..j] == items;
          }
      }
    }

    /** `set(r.id, r)` on the container, then the change batch it reports. */
    method Set(r: Record<B>)
      requires Valid()
      modifies this`store, this`log
      ensures Valid()
      ensures store == Put(old(store), r.id, r)
      ensures log == old(log) + Notify(handlers, Some(Diff([r], [])))
    {
      var action := if r.id in Keys(store) then Update else Add;
      PutProperties(store, r.id, r);
      store := Put(store, r.id, r);
      Dispatch(Some([(r.id, action)]));
      assert BatchDiff([(r.id, action)], store) == Diff([r], []) by {
        assert [(r.id, action)][..0] == [];
      }
    }

    /** `delete(k)` on the container: a present key is removed and reported; an absent one is a no-op. */
    method Del(k: string)
      requires Valid()
      modifies this`store, this`log
      ensures Valid()
      ensures store == Remove(old(store), k)
      ensures log == old(log) + if k in Keys(old(store)) then Notify(handlers, Some(Diff([], [k]))) else []
    {
      RemoveProperties(store, k);
      if k in Keys(store) {
        store := Remove(store, k);
        Dispatch(Some([(k, Delete)]));
        assert BatchDiff([(k, Delete)], store) == Diff([], [k]) by {
          assert [(k, Delete)][..0] == [];
        }
      }
    }

    /** Registers a fresh closure around `callback` as a change observer. */
    method OnStateChanged(callback: CallbackId)
      requires Valid()
      modifies this`handlers, this`nextRef
      ensures Valid()
      ensures handlers == old(handlers) + [Handler(old(nextRef), callback)]
    {
      handlers := handlers + [Handler(nextRef, callback)];
      nextRef := nextRef + 1;
    }

    /**
     * As written: builds another fresh closure around `callback` and removes
     * that closure by identity. It was never registered, so no observer is
     * removed, including the one `OnStateChanged` registered for `callback`.
     */
    method OnStateOff(callback: CallbackId)
      requires Valid()
      modifies this`handlers, this`nextRef
      ensures Valid()
      ensures handlers == old(handlers)
    {
      var wrapper := Handler(nextRef, callback);
      nextRef := nextRef + 1;
      assert forall i :: 0 <= i < |handlers| ==> handlers[i] != wrapper;
      handlers := Without(handlers, wrapper);
    }

    /** Corrected unsubscription: removes every observer registered for `callback`. */
    method Unsubscribe(callback: CallbackId)
      requires Valid()
      modifies this`handlers
      ensures Valid()
      ensures handlers == DropCallback(old(handlers), callback)
    {
      handlers := DropCallback(handlers, callback);
    }

    /** The container reports `changes`: every observer runs, in registration order. */
    method Dispatch(changes: Option<Batch>)
      requires changes.Some? ==> WellFormed(changes.value, store)
      modifies this`log
      ensures log == old(log) + Notify(handlers, OnChange(changes, store))
    {
      var i := 0;
      while i < |handlers|
        invariant 0 <= i <= |handlers|
        invariant log == old(log) + Notify(handlers[..i], OnChange(changes, store))
      {
        if changes.Some? && |changes.value| > 0 {
          var diff := ComputeDiff(changes.value);
          assert handlers[..i + 1][..i] == handlers[..i];
          log := log + [Call(handlers[i].callback, diff)];
        }
        i := i + 1;
      }
      assert handlers[..i] == handlers;
    }

    /** Walks the batch in order, pushing onto `toPut` and `toRemove`. */
    method ComputeDiff(changes: Batch) returns (diff: Diff<B>)
      requires WellFormed(changes, store)
      ensures diff == BatchDiff(changes, store)
      ensures |diff.toPut| + |diff.toRemove| == |changes|
    {
      var toPut: seq<Record<B>> := [];
      var toRemove: seq<string> := [];
      var i := 0;
      while i < |changes|
        invariant 0 <= i <= |changes|
        invariant WellFormed(changes[..i], store)
        invariant Diff(toPut, toRemove) == BatchDiff(changes[..i], store)
      {
        assert changes[..i + 1][..i] == changes[..i];
        var (key, action) := changes[i];
        match action {
          case Add =>
            toPut := toPut + [Lookup(store, key).value];
          case Update =>
            toPut := toPut + [Lookup(store, key).value];
          case Delete =>
            toRemove := toRemove + [key];
        }
        i := i + 1;
      }
      assert changes[..i] == changes;
      diff := Diff(toPut, toRemove);
    }
  }

  /** A prefix one longer writes and deletes what the shorter one does, then what the next value does. */
  lemma SnocPrefix<B>(vs: seq<Value<B>>, i: nat)
    requires i < |vs|
    ensures Writes(vs[..i + 1]) == Writes(vs[..i]) + ValueWrites(vs[i])
    ensures DeleteIds(vs[..i + 1]) == DeleteIds(vs[..i]) + ValueDeletes(vs[i])
  {
    assert vs[..i + 1][..i] == vs[..i];
  }

  /** Deleting `a` then `b` is deleting `a + b`, for the container and for the calls made. */
  lemma {:induction false} AppendDeletes<B>(s: Store<B>, hs: seq<Handler>, a: seq<string>, b: seq<string>)
    ensures RemoveAll(s, a + b) == RemoveAll(RemoveAll(s, a), b)
    ensures DeleteLog(hs, s, a + b) == DeleteLog(hs, s, a) + DeleteLog(hs, RemoveAll(s, a), b)
  {
    if b == [] {
      assert a + b == a;
    } else {
      var n := |b| - 1;
      var ab := a + b;
      assert ab[..|ab| - 1] == a + b[..n];
      assert ab[|ab| - 1] == b[n];
      AppendDeletes(s, hs, a, b[..n]);
    }
  }

  /** Writing `a` then `b` is writing `a + b`, for the container and for the calls made. */
  lemma AppendWrites<B>(s: Store<B>, hs: seq<Handler>, a: seq<Record<B>>, b: seq<Record<B>>)
    ensures PutAll(s, a + b) == PutAll(PutAll(s, a), b)
    ensures PutLog(hs, a + b) == PutLog(hs, a) + PutLog(hs, b)
  {
    AppendPutAll(s, a, b);
    AppendPutLog(hs, a, b);
  }

  lemma {:induction false} AppendPutAll<B>(s: Store<B>, a: seq<Record<B>>, b: seq<Record<B>>)
    ensures PutAll(s, a + b) == PutAll(PutAll(s, a), b)
  {
    if b == [] {
      assert a + b == a;
    } else {
      var n := |b| - 1;
      var ab := a + b;
      assert ab[..|ab| - 1] == a + b[..n];
      assert ab[|ab| - 1] == b[n];
      AppendPutAll(s, a, b[..n]);
    }
  }

  lemma {:induction false} AppendPutLog<B>(hs: seq<Handler>, a: seq<Record<B>>, b: seq<Record<B>>)
    ensures PutLog(hs, a + b) == PutLog(hs, a) + PutLog(hs, b)
  {
    if b == [] {
      assert a + b == a;
    } else {
      var n := |b| - 1;
      var ab := a + b;
      assert ab[..|ab| - 1] == a + b[..n];
      assert ab[|ab| - 1] == b[n];
      AppendPutLog(hs, a, b[..n]);
    }
  }

  /**
   * Regrouping a concatenation. Dafny knows this, but stating it for the
   * three logs of a loop step keeps `SetState` and `DeleteState` within the
   * resource limit.
   */
  lemma Assoc<T>(a: seq<T>, b: seq<T>, c: seq<T>)
    ensures (a + b) + c == a + (b + c)
  {
  }

  /** With no observer registered, seeding calls nobody. */
  lemma {:induction false} SeedLogSilent<B>(s: Store<B>, rs: seq<Record<B>>)
    ensures SeedLog([], s, rs) == []
  {
    if rs != [] {
      SeedLogSilent(s, rs[..|rs| - 1]);
    }
  }
}

/** Properties of the record-keyed storage, stated on the specification functions. */
module TlDrawSyncedProperties {
  import opened Wrappers
  import opened TlDrawSynced

  /** The ids of a sequence of records. */
  function Ids<B>(rs: seq<Record<B>>): set<string>
  {
    set i | 0 <= i < |rs| :: rs[i].id
  }

  /** Writing a sequence of records leaves under each id the last record written with that id. */
  lemma {:induction false} PutAllLookup<B>(s: Store<B>, rs: seq<Record<B>>, k: string)
    ensures Lookup(PutAll(s, rs), k) == if LastWith(rs, k).Some? then LastWith(rs, k) else Lookup(s, k)
  {
    if rs != [] {
      var r := rs[|rs| - 1];
      PutAllLookup(s, rs[..|rs| - 1], k);
      PutProperties(PutAll(s, rs[..|rs| - 1]), r.id, r);
    }
  }

  /** Writing keeps at most one entry per id. */
  lemma {:induction false} PutAllDistinct<B>(s: Store<B>, rs: seq<Record<B>>)
    requires DistinctKeys(s)
    ensures DistinctKeys(PutAll(s, rs))
    ensures Keys(PutAll(s, rs)) == Keys(s) + Ids(rs)
  {
    if rs != [] {
      var front := rs[..|rs| - 1];
      var r := rs[|rs| - 1];
      PutAllDistinct(s, front);
      PutProperties(PutAll(s, front), r.id, r);
      assert Ids(rs) == Ids(front) + {r.id} by {
        assert forall i :: 0 <= i < |front| ==> front[i] == rs[i];
      }
    }
  }

  /** Among records with distinct ids, each one is the last written under its id. */
  lemma {:induction false} LastWithDistinct<B>(rs: seq<Record<B>>, i: nat)
    requires DistinctIds(rs) && i < |rs|
    ensures LastWith(rs, rs[i].id) == Some(rs[i])
  {
    var n := |rs| - 1;
    if i < n {
      assert rs[..n][i] == rs[i];
      LastWithDistinct(rs[..n], i);
    }
  }

  /** Later records that do not carry id `k` do not change which record was last written under `k`. */
  lemma {:induction false} LastWithAppend<B>(a: seq<Record<B>>, b: seq<Record<B>>, k: string)
    requires forall m :: 0 <= m < |b| ==> b[m].id != k
    ensures LastWith(a + b, k) == LastWith(a, k)
  {
    if b == [] {
      assert a + b == a;
    } else {
      var n := |b| - 1;
      assert (a + b)[..|a + b| - 1] == a + b[..n];
      LastWithAppend(a, b[..n], k);
    }
  }

  /** No value after position `i` writes a record with id `k`. */
  ghost predicate NotWrittenAfter<B>(vs: seq<Value<B>>, i: nat, k: string)
  {
    forall j, m :: i < j < |vs| && 0 <= m < |ValueWrites(vs[j])| ==> ValueWrites(vs[j])[m].id != k
  }

  /** What the last write of id `k` in `setState(vs[..i])`, followed by writes of other ids, leaves. */
  lemma {:induction false} WritesLastWith<B>(vs: seq<Value<B>>, i: nat, k: string)
    requires i < |vs| && NotWrittenAfter(vs, i, k)
    ensures LastWith(Writes(vs), k) == LastWith(Writes(vs[..i + 1]), k)
  {
    var n := |vs| - 1;
    if i < n {
      assert vs[..n][..i + 1] == vs[..i + 1];
      WritesLastWith(vs[..n], i, k);
      LastWithAppend(Writes(vs[..n]), ValueWrites(vs[n]), k);
    } else {
      assert vs[..i + 1] == vs;
    }
  }

  /** `setState`: a value with a truthy id is stored under that id, unless a later value writes that id. */
  lemma SetStateStoresRecord<B>(s: Store<B>, vs: seq<Value<B>>, i: nat)
    requires i < |vs| && vs[i].Single? && vs[i].record.id != ""
    requires NotWrittenAfter(vs, i, vs[i].record.id)
    ensures Lookup(PutAll(s, Writes(vs)), vs[i].record.id) == Some(vs[i].record)
  {
    var r := vs[i].record;
    WritesLastWith(vs, i, r.id);
    SnocPrefix(vs, i);
    assert Writes(vs[..i + 1]) == Writes(vs[..i]) + [r];
    assert (Writes(vs[..i]) + [r])[..|Writes(vs[..i])|] == Writes(vs[..i]);
    PutAllLookup(s, Writes(vs), r.id);
  }

  /** `setState`: each item of a list value is stored under its own id, unless a later value writes that id. */
  lemma SetStateStoresItem<B>(s: Store<B>, vs: seq<Value<B>>, i: nat, m: nat)
    requires i < |vs| && vs[i].Group? && DistinctIds(vs[i].items) && m < |vs[i].items|
    requires NotWrittenAfter(vs, i, vs[i].items[m].id)
    ensures Lookup(PutAll(s, Writes(vs)), vs[i].items[m].id) == Some(vs[i].items[m])
  {
    var items := vs[i].items;
    var k := items[m].id;
    WritesLastWith(vs, i, k);
    SnocPrefix(vs, i);
    assert ValueWrites(vs[i]) == items;
    AppendSplit(Writes(vs[..i]), items, m);
    PutAllLookup(s, Writes(vs), k);
  }

  /** The last write of `items[m].id` in `a + items` is `items[m]` when the items' ids are distinct. */
  lemma AppendSplit<B>(a: seq<Record<B>>, items: seq<Record<B>>, m: nat)
    requires DistinctIds(items) && m < |items|
    ensures LastWith(a + items, items[m].id) == Some(items[m])
  {
    var k := items[m].id;
    var pre, post := a + items[..m + 1], items[m + 1..];
    assert a + items == pre + post;
    assert forall i :: 0 <= i < |post| ==> post[i] == items[m + 1 + i];
    LastWithAppend(pre, post, k);
    assert pre[|pre| - 1] == items[m];
  }

  /** After deleting the keys `ks`, exactly those keys are gone and every other key is unchanged. */
  lemma {:induction false} RemoveAllLookup<B>(s: Store<B>, ks: seq<string>, k: string)
    ensures Lookup(RemoveAll(s, ks), k) == if k in ks then None else Lookup(s, k)
  {
    if ks != [] {
      var front := ks[..|ks| - 1];
      RemoveAllLookup(s, front, k);
      RemoveProperties(RemoveAll(s, front), ks[|ks| - 1]);
      assert k in ks <==> k in front || k == ks[|ks| - 1] by {
        assert ks == front + [ks[|ks| - 1]];
      }
    }
  }

  /** `deleteState` deletes exactly the truthy ids of its record values. */
  lemma {:induction false} DeleteIdsExactly<B>(vs: seq<Value<B>>, k: string)
    ensures k in DeleteIds(vs) <==> k != "" && exists i :: 0 <= i < |vs| && vs[i].Single? && vs[i].record.id == k
  {
    if vs != [] {
      var n := |vs| - 1;
      DeleteIdsExactly(vs[..n], k);
      assert forall i :: 0 <= i < n ==> vs[..n][i] == vs[i];
    }
  }

  /** `deleteState`: a truthy id of a record value is gone, an id no record value carries is untouched. */
  lemma DeleteStateEffect<B>(s: Store<B>, vs: seq<Value<B>>, k: string)
    ensures (k != "" && exists i :: 0 <= i < |vs| && vs[i].Single? && vs[i].record.id == k) ==>
      Lookup(RemoveAll(s, DeleteIds(vs)), k) == None
    ensures (forall i :: 0 <= i < |vs| && vs[i].Single? ==> vs[i].record.id != k) ==>
      Lookup(RemoveAll(s, DeleteIds(vs)), k) == Lookup(s, k)
  {
    DeleteIdsExactly(vs, k);
    RemoveAllLookup(s, DeleteIds(vs), k);
  }

  /** Seeding never overwrites: every id already present keeps its record. */
  lemma {:induction false} SeedKeepsPresent<B>(s: Store<B>, rs: seq<Record<B>>, k: string)
    requires k in Keys(s)
    ensures Lookup(Seed(s, rs), k) == Lookup(s, k)
  {
    if rs != [] {
      var front := rs[..|rs| - 1];
      var r := rs[|rs| - 1];
      SeedKeepsPresent(s, front, k);
      SeedKeys(s, front);
      PutProperties(Seed(s, front), r.id, r);
    }
  }

  /** Seeding adds exactly the ids of the initial records. */
  lemma {:induction false} SeedKeys<B>(s: Store<B>, rs: seq<Record<B>>)
    ensures Keys(Seed(s, rs)) == Keys(s) + Ids(rs)
  {
    if rs != [] {
      var front := rs[..|rs| - 1];
      var r := rs[|rs| - 1];
      SeedKeys(s, front);
      PutProperties(Seed(s, front), r.id, r);
      assert Ids(rs) == Ids(front) + {r.id} by {
        assert forall i :: 0 <= i < |front| ==> front[i] == rs[i];
      }
    }
  }

  /** Seeding stores each initial record whose id was absent (initial ids distinct). */
  lemma {:induction false} SeedFillsAbsent<B>(s: Store<B>, rs: seq<Record<B>>, i: nat)
    requires DistinctIds(rs) && i < |rs| && rs[i].id !in Keys(s)
    ensures Lookup(Seed(s, rs), rs[i].id) == Some(rs[i])
  {
    var n := |rs| - 1;
    var front := rs[..n];
    var r := rs[n];
    if i == n {
      SeedKeys(s, front);
      assert r.id !in Ids(front);
      PutProperties(Seed(s, front), r.id, r);
    } else {
      assert front[i] == rs[i];
      SeedFillsAbsent(s, front, i);
      SeedKeys(s, front);
      PutProperties(Seed(s, front), r.id, r);
    }
  }

  /** The diff of a concatenated batch is the concatenation of the diffs: batch order is kept. */
  lemma {:induction false} BatchDiffAppend<B>(a: Batch, b: Batch, s: Store<B>)
    requires WellFormed(a + b, s)
    ensures WellFormed(a, s) && WellFormed(b, s)
    ensures BatchDiff(a + b, s) == Diff(BatchDiff(a, s).toPut + BatchDiff(b, s).toPut,
                                        BatchDiff(a, s).toRemove + BatchDiff(b, s).toRemove)
  {
    assert forall i :: 0 <= i < |a| ==> (a + b)[i] == a[i];
    assert forall i :: 0 <= i < |b| ==> (a + b)[|a| + i] == b[i];
    if b == [] {
      assert a + b == a;
    } else {
      var n := |b| - 1;
      var ab := a + b;
      assert ab[..|ab| - 1] == a + b[..n];
      assert forall i :: 0 <= i < n ==> b[..n][i] == b[i];
      BatchDiffAppend(a, b[..n], s);
    }
  }

  /** A single change: an add or update puts the current record, a delete removes the key. */
  lemma BatchDiffSingle<B>(k: string, action: Action, s: Store<B>)
    requires action != Delete ==> k in Keys(s)
    ensures WellFormed([(k, action)], s)
    ensures action == Delete ==> BatchDiff([(k, action)], s) == Diff([], [k])
    ensures action != Delete ==> BatchDiff([(k, action)], s) == Diff([Lookup(s, k).value], [])
  {
    assert [(k, action)][..0] == [];
  }

  /** The observers' calls, one per observer in registration order, all with the same diff. */
  lemma {:induction false} NotifyAt<B>(hs: seq<Handler>, d: Diff<B>)
    ensures |Notify(hs, Some(d))| == |hs|
    ensures forall i :: 0 <= i < |hs| ==> Notify(hs, Some(d))[i] == Call(hs[i].callback, d)
  {
    if hs != [] {
      NotifyAt(hs[..|hs| - 1], d);
    }
  }

  /** After the corrected unsubscription, no call reaches the callback; the other observers still run. */
  lemma DropCallbackSilent<B>(hs: seq<Handler>, c: CallbackId, d: Diff<B>)
    ensures forall i :: 0 <= i < |Notify(DropCallback(hs, c), Some(d))| ==>
      Notify(DropCallback(hs, c), Some(d))[i].callback != c
    ensures forall h :: h in hs && h.callback != c ==> Call(h.callback, d) in Notify(DropCallback(hs, c), Some(d))
  {
    var r := DropCallback(hs, c);
    NotifyAt(r, d);
    forall h | h in hs && h.callback != c
      ensures Call(h.callback, d) in Notify(r, Some(d))
    {
      var j :| 0 <= j < |r| && r[j] == h;
      assert Notify(r, Some(d))[j] == Call(h.callback, d);
    }
  }

  /** Writing a changed record and a new one, then reading both back (test/tldrawSyncedStorage.test.ts). */
  method UpdateGetScenario()
  {
    var x0 := Record("shape:xxxx", 0);
    var x1 := Record("shape:xxxx", 555);
    var y := Record("shape:yyyy", 0);
    var st := new TlDrawSyncedStorage<int>("room", [x0], []);
    assert [x0][..0] == [];
    assert Lookup(st.store, x0.id) == Some(x0);

    ghost var initial := st.store;
    st.SetState([Single(x1)]);
    SetStateStoresRecord(initial, [Single(x1)], 0);
    ghost var afterFirst := st.store;
    assert Lookup(afterFirst, x1.id) == Some(x1);

    var both := [Single(x1), Single(y)];
    st.SetState(both);
    SetStateStoresRecord(afterFirst, both, 0);
    SetStateStoresRecord(afterFirst, both, 1);
    var seen := st.GetState();
    assert Lookup(seen, x1.id) == Some(x1) && Lookup(seen, y.id) == Some(y);

  }

  /** Deleting one of two records leaves the other (test/tldrawSyncedStorage.test.ts). */
  method DeleteScenario()
  {
    var x1 := Record("shape:xxxx", 555);
    var y := Record("shape:yyyy", 0);
    var st := new TlDrawSyncedStorage<int>("room", [x1, y], []);
    ghost var before := st.store;
    st.DeleteState([Single(y)]);
    DeleteStateEffect(before, [Single(y)], y.id);
    DeleteStateEffect(before, [Single(y)], x1.id);
    SeedFillsAbsent([], [x1, y], 0);
    var seen := st.GetState();
    assert Lookup(seen, y.id) == None && Lookup(seen, x1.id) == Some(x1);
  }

  /** A registered callback receives the diff of each write (test/tldrawSyncedStorage.test.ts). */
  method StateChangeScenario()
  {
    var x := Record("shape:xxxx", 999);
    var st := new TlDrawSyncedStorage<int>("room", [], []);
    st.OnStateChanged(7);
    st.SetState([Single(x)]);
    assert [Single(x)][..0] == [];
    assert [x][..0] == [];
    assert Writes([Single(x)]) == [x];
    assert st.handlers[..0] == [];
    assert Notify(st.handlers, Some(Diff([x], []))) == [Call(7, Diff([x], []))];
    assert PutLog(st.handlers, [x]) == [Call(7, Diff([x], []))];
    assert st.log == [Call(7, Diff([x], []))];
  }

  /**
   * As written, `onStateOff` leaves the callback registered: it is still called
   * on the next write.
   */
  method OnStateOffScenario()
  {
    var x := Record("shape:xxxx", 1);
    var st := new TlDrawSyncedStorage<int>("room", [], []);
    st.OnStateChanged(7);
    st.OnStateOff(7);
    st.SetState([Single(x)]);
    assert [Single(x)][..0] == [];
    assert [x][..0] == [];
    assert Writes([Single(x)]) == [x];
    assert st.handlers[..0] == [];
    assert Notify(st.handlers, Some(Diff([x], []))) == [Call(7, Diff([x], []))];
    assert PutLog(st.handlers, [x]) == [Call(7, Diff([x], []))];
    assert st.log == [Call(7, Diff([x], []))];
  }

  /** With the corrected unsubscription, the callback is no longer called. */
  method UnsubscribeScenario()
  {
    var x := Record("shape:xxxx", 1);
    var st := new TlDrawSyncedStorage<int>("room", [], []);
    st.OnStateChanged(7);
    st.Unsubscribe(7);
    assert st.handlers == [];
    st.SetState([Single(x)]);
    assert [Single(x)][..0] == [];
    assert [x][..0] == [];
    assert st.log == [];
  }
}
