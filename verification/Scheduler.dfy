/** The scheduler, its ordered caches and its view of one worker, as objects updated in place. */
module Scheduler {
  import opened Sequences
  import opened Wrappers
  import opened WorkerPool

  /** What the coordinator knows about one worker. */
  class WorkerConnection {
    const id: Id
    var manifest: Option<Manifest>

    constructor (id: Id)
      ensures this.id == id && manifest == None
    {
      this.id := id;
      manifest := None;
    }

    /** A manifest message; true for the first one. */
    method OnManifest(arrived: Manifest) returns (newWorker: bool)
      modifies this
      ensures newWorker == old(manifest).None?
      ensures manifest == Some(Received(old(manifest), arrived))
      ensures manifest.Some? && manifest.value.packages == arrived.packages
    {
      newWorker := false;
      if manifest == None {
        newWorker := true;
      }
      var lastName, lastVersion := "", "";
      if manifest.Some? {
        lastName, lastVersion := manifest.value.name, manifest.value.version;
      }
      var next := arrived;
      if lastName != "" && lastVersion != "" {
        next := next.(name := lastName, version := lastVersion);
      }
      manifest := Some(next);
    }
  }

  lemma {:induction false} AtIndex(ids: seq<Id>, i: nat)
    requires NoDuplicates(ids) && i < |ids|
    ensures Removed(ids, ids[i]) == ids[..i] + ids[i + 1..]
  {
    RemovedAt(ids, i);
  }

  /** Workers in the order they were put. */
  class PACache {
    var cache: seq<Id>

    ghost predicate Valid()
      reads this
    {
      NoDuplicates(cache)
    }

    constructor ()
      ensures Valid() && cache == []
    {
      cache := [];
    }

    method Add(w: Id)
      requires Valid()
      modifies this
      ensures Valid() && cache == Put(old(cache), w)
    {
      PutNoDuplicates(cache, w);
      cache := Removed(cache, w);
      cache := cache + [w];
    }

    method Remove(w: Id) returns (ok: bool)
      requires Valid()
      modifies this
      ensures Valid() && ok == (w in old(cache)) && cache == Removed(old(cache), w)
    {
      RemovedNoDuplicates(cache, w);
      for i := 0 to |cache|
        invariant w !in cache[..i] && cache == old(cache)
      {
        if cache[i] == w {
          RemovedAt(cache, i);
          cache := cache[..i] + cache[i + 1..];
          return true;
        }
      }
      return false;
    }

    method RemoveEnd(manifests: map<Id, Manifest>, c: Component) returns (w: Id)
      requires Valid() && cache != []
      modifies this
      ensures Valid() && w == ToEvict(old(cache), manifests, c.manifest.name) && cache == Removed(old(cache), w)
      ensures exists i ::
        && 0 <= i < |old(cache)| && w == old(cache)[i] && cache == old(cache)[..i] + old(cache)[i + 1..]
        && (forall j :: 0 <= j < i ==>
              !(old(cache)[j] in manifests && manifests[old(cache)[j]].name == c.manifest.name))
        && ((w in manifests && manifests[w].name == c.manifest.name)
            || (i == 0 && forall v :: v in old(cache) ==> !(v in manifests && manifests[v].name == c.manifest.name)))
    {
      hide FirstNamed, ToEvict, Removed, NoDuplicates;
      ghost var e := EvictsTheEarliest(cache, manifests, c.manifest.name);
      AtIndex(cache, e);
      for i := 0 to |cache|
        invariant cache == old(cache)
        invariant forall j :: 0 <= j < i ==> !(cache[j] in manifests && manifests[cache[j]].name == c.manifest.name)
      {
        w := cache[i];
        if w in manifests && manifests[w].name == c.manifest.name {
          assert i == e;
          var _ := Remove(w);
          return;
        }
      }
      w := cache[0];
      var _ := Remove(w);
    }
  }

  class Scheduler {
    const numSlot: nat
    const compat: Compat
    const activeWorkers: PACache
    const cachedWorkers: PACache
    var newWorkers: seq<Id>
    var waitingComponents: seq<Component>
    /** The manifests of the worker connections, by worker. */
    var manifests: map<Id, Manifest>

    ghost const Repr: set<object>

    ghost predicate Valid()
      reads this, activeWorkers, cachedWorkers
    {
      activeWorkers != cachedWorkers && activeWorkers.Valid() && cachedWorkers.Valid()
      && Repr == {this, activeWorkers, cachedWorkers}
    }

    function State(): Pool
      reads this, activeWorkers, cachedWorkers
    {
      Pool(activeWorkers.cache, cachedWorkers.cache, newWorkers, waitingComponents, manifests)
    }

    constructor (numSlot: nat, compat: Compat)
      ensures Valid() && fresh(Repr) && this.numSlot == numSlot && this.compat == compat && State() == EMPTY_POOL
    {
      this.numSlot, this.compat := numSlot, compat;
      var active := new PACache();
      var cached := new PACache();
      activeWorkers, cachedWorkers := active, cached;
      newWorkers, waitingComponents, manifests := [], [], map[];
      Repr := {this, active, cached};
    }

    method AddNewWorker(w: Id)
      requires Valid()
      modifies this
      ensures Valid() && State() == old(State()).(arriving := old(newWorkers) + [w])
    {
      newWorkers := newWorkers + [w];
    }

    method CacheWorker(w: Id) returns (ok: bool)
      requires Valid()
      modifies Repr
      ensures Valid() && ok == (w in old(activeWorkers.cache))
      ensures State() == match WorkerPool.CacheWorker(old(State()), w) case Some(p) => p case None => old(State())
    {
      ok := activeWorkers.Remove(w);
      if ok {
        cachedWorkers.Add(w);
      }
    }

    method ActivateWorker(w: Id)
      requires Valid() && w in cachedWorkers.cache
      modifies Repr
      ensures Valid() && State() == Activate(old(State()), w)
    {
      var _ := cachedWorkers.Remove(w);
      activeWorkers.Add(w);
    }

    method RecordLastExecutedComponent(w: Id, c: Component)
      requires Valid()
      modifies this
      ensures Valid() && State() == Record(old(State()), w, c)
    {
      if w in manifests {
        manifests := manifests[w := manifests[w].(name := c.manifest.name, version := c.manifest.version)];
      }
    }

    /** The calls back into the coordinator and the start of a worker process are the outcome. */
    method GetCompatibleWorkerSync(c: Component) returns (outcome: Dispatched)
      requires Valid()
      modifies Repr
      ensures Valid() && outcome == Dispatch(compat, numSlot, old(State()), c)
      ensures State() == if outcome.Reused? || outcome.Started? then outcome.pool else old(State())
    {
      hide ToEvict, FirstNamed, NoDuplicates, Put, Removed;
      for i := 0 to |cachedWorkers.cache|
        invariant Valid() && State() == old(State())
        invariant FirstCompatible(compat, cachedWorkers.cache, manifests, c)
               == FirstCompatible(compat, cachedWorkers.cache[i..], manifests, c)
      {
        var w := cachedWorkers.cache[i];
        if Compatible(compat, manifests, w, c) {
          ActivateWorker(w);
          RecordLastExecutedComponent(w, c);
          return Reused(w, State());
        }
        assert cachedWorkers.cache[i..][1..] == cachedWorkers.cache[i + 1..];
      }
      if |activeWorkers.cache| >= numSlot {
        return PoolFull;
      }
      var evicted := None;
      if |activeWorkers.cache| + |cachedWorkers.cache| >= numSlot {
        if |cachedWorkers.cache| == 0 {
          return NothingToEvict;
        }
        var w := cachedWorkers.RemoveEnd(manifests, c);
        evicted := Some(w);
      }
      waitingComponents := waitingComponents + [c];
      return Started(evicted, State());
    }

    /** The component handed to the worker, if one was waiting. */
    method OnWorkerReady(w: Id) returns (taken: Option<Component>)
      requires Valid()
      modifies Repr
      ensures Valid() && (State(), taken) == WorkerReady(old(State()), w)
    {
      hide NoDuplicates, Removed;
      PutNoDuplicates(cachedWorkers.cache, w);
      cachedWorkers.Add(w);
      if |waitingComponents| > 0 {
        var c := waitingComponents[0];
        waitingComponents := waitingComponents[1..];
        newWorkers := Removed(newWorkers, w);
        ActivateWorker(w);
        RecordLastExecutedComponent(w, c);
        return Some(c);
      }
      return None;
    }
  }
}
