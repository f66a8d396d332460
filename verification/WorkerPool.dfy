/** The scheduler's bookkeeping as a value: which workers are active, cached or new, and which components wait. */
module WorkerPool {
  import opened Sequences
  import opened Wrappers

  /** Worker ids are universally unique; numbers stand for them. */
  type Id = nat

  datatype Manifest = Manifest(name: string, version: string, packages: map<string, string>)

  datatype Component = Component(id: nat, manifest: Manifest)

  /** Whether a worker with this manifest may execute this component. */
  type Compat = (Manifest, Component) -> bool

  datatype Pool = Pool(
    active: seq<Id>,
    cached: seq<Id>,
    arriving: seq<Id>,
    waiting: seq<Component>,
    manifests: map<Id, Manifest>)

  const EMPTY_POOL := Pool([], [], [], [], map[])

  /** A manifest arriving from a worker: a refreshed one keeps the name and version recorded before. */
  function Received(current: Option<Manifest>, arrived: Manifest): Manifest
  {
    match current
    case Some(m) => if m.name != "" && m.version != "" then arrived.(name := m.name, version := m.version) else arrived
    case None => arrived
  }

  // ---------- Ordered sets of workers ----------

  function Put(ids: seq<Id>, w: Id): seq<Id>
  {
    Removed(ids, w) + [w]
  }

  lemma {:induction false} PutNoDuplicates(ids: seq<Id>, w: Id)
    requires NoDuplicates(ids)
    ensures NoDuplicates(Put(ids, w)) && forall x :: x in Put(ids, w) <==> x in ids || x == w
  {
    RemovedNoDuplicates(ids, w);
  }

  function FirstNamed(ids: seq<Id>, manifests: map<Id, Manifest>, name: string): (r: Option<Id>)
    ensures r.Some? ==> r.value in ids && r.value in manifests && manifests[r.value].name == name
    ensures r.None? ==> forall w :: w in ids && w in manifests ==> manifests[w].name != name
  {
    if ids == [] then None
    else if ids[0] in manifests && manifests[ids[0]].name == name then Some(ids[0])
    else FirstNamed(ids[1..], manifests, name)
  }

  /** The worker to evict: the earliest that last executed a component of this name, or else the earliest. */
  function ToEvict(ids: seq<Id>, manifests: map<Id, Manifest>, name: string): (w: Id)
    requires ids != []
    ensures w in ids
  {
    match FirstNamed(ids, manifests, name)
    case Some(w) => w
    case None => ids[0]
  }

  predicate Compatible(compat: Compat, manifests: map<Id, Manifest>, w: Id, c: Component)
  {
    w in manifests && compat(manifests[w], c)
  }

  function FirstCompatible(compat: Compat, ids: seq<Id>, manifests: map<Id, Manifest>, c: Component): (r: Option<Id>)
    ensures r.Some? ==> r.value in ids && Compatible(compat, manifests, r.value, c)
    ensures r.None? ==> forall w :: w in ids ==> !Compatible(compat, manifests, w, c)
  {
    if ids == [] then None
    else if Compatible(compat, manifests, ids[0], c) then Some(ids[0])
    else FirstCompatible(compat, ids[1..], manifests, c)
  }

  // ---------- Scheduler operations ----------

  function Activate(p: Pool, w: Id): Pool
  {
    p.(cached := Removed(p.cached, w), active := Put(p.active, w))
  }

  function Record(p: Pool, w: Id, c: Component): Pool
  {
    if w in p.manifests
    then p.(manifests := p.manifests[w := p.manifests[w].(name := c.manifest.name, version := c.manifest.version)])
    else p
  }

  /** Back from active to cached; an error when the worker is not active. */
  function CacheWorker(p: Pool, w: Id): Option<Pool>
  {
    if w in p.active then Some(p.(active := Removed(p.active, w), cached := Put(p.cached, w))) else None
  }

  datatype Dispatched =
    | Reused(worker: Id, pool: Pool)
    | Started(evicted: Option<Id>, pool: Pool)
    | PoolFull
    | NothingToEvict

  /**
   * A component asks for a worker: reuse the first compatible cached one, or start a new one, evicting a cached one
   * if active and cached workers fill all slots.
   */
  function Dispatch(compat: Compat, numSlot: nat, p: Pool, c: Component): Dispatched
  {
    match FirstCompatible(compat, p.cached, p.manifests, c)
    case Some(w) => Reused(w, Record(Activate(p, w), w, c))
    case None =>
      if |p.active| >= numSlot then PoolFull
      else if |p.active| + |p.cached| < numSlot then Started(None, p.(waiting := p.waiting + [c]))
      else if p.cached == [] then NothingToEvict
      else
        var w := ToEvict(p.cached, p.manifests, c.manifest.name);
        Started(Some(w), p.(cached := Removed(p.cached, w), waiting := p.waiting + [c]))
  }

  /** A worker's first manifest has arrived: it takes a waiting component, if any. */
  function WorkerReady(p: Pool, w: Id): (Pool, Option<Component>)
  {
    var q := p.(cached := Put(p.cached, w));
    if q.waiting == [] then (q, None) else
    var c := q.waiting[0];
    var r := q.(waiting := q.waiting[1..], arriving := Removed(q.arriving, w));
    (Record(Activate(r, w), w, c), Some(c))
  }

  /** Whether `get_worker` finds a worker. */
  predicate HasWorker(p: Pool, w: Id)
  {
    w in p.arriving || w in p.active || w in p.cached
  }

  // ---------- What the operations do, in terms of the lists alone ----------

  /** A worker is put last, and the others keep their places. */
  lemma {:induction false} PutLast(ids: seq<Id>, w: Id)
    requires NoDuplicates(ids)
    ensures w !in ids ==> Put(ids, w) == ids + [w]
    ensures forall i :: 0 <= i < |ids| && ids[i] == w ==> Put(ids, w) == ids[..i] + ids[i + 1..] + [w]
  {
    forall i | 0 <= i < |ids| && ids[i] == w
      ensures Removed(ids, w) == ids[..i] + ids[i + 1..]
    {
      RemovedAt(ids, i);
    }
  }

  lemma {:induction false} FirstNamedIs(ids: seq<Id>, manifests: map<Id, Manifest>, name: string) returns (i: nat)
    ensures i <= |ids|
    ensures forall j :: 0 <= j < i ==> !(ids[j] in manifests && manifests[ids[j]].name == name)
    ensures FirstNamed(ids, manifests, name) == if i == |ids| then None else Some(ids[i])
    ensures i < |ids| ==> ids[i] in manifests && manifests[ids[i]].name == name
  {
    if ids == [] || (ids[0] in manifests && manifests[ids[0]].name == name) {
      i := 0;
    } else {
      var k := FirstNamedIs(ids[1..], manifests, name);
      i := k + 1;
      assert forall j :: 1 <= j < |ids| ==> ids[j] == ids[1..][j - 1];
    }
  }

  lemma {:induction false} FirstCompatibleIs(compat: Compat, ids: seq<Id>, manifests: map<Id, Manifest>, c: Component)
    returns (i: nat)
    ensures i <= |ids|
    ensures forall j :: 0 <= j < i ==> !(ids[j] in manifests && compat(manifests[ids[j]], c))
    ensures FirstCompatible(compat, ids, manifests, c) == if i == |ids| then None else Some(ids[i])
    ensures i < |ids| ==> ids[i] in manifests && compat(manifests[ids[i]], c)
  {
    if ids == [] || (ids[0] in manifests && compat(manifests[ids[0]], c)) {
      i := 0;
    } else {
      var k := FirstCompatibleIs(compat, ids[1..], manifests, c);
      i := k + 1;
      assert forall j :: 1 <= j < |ids| ==> ids[j] == ids[1..][j - 1];
    }
  }

  /** Out goes the earliest worker with the component's name, or the earliest of all if none has it. */
  lemma {:induction false} EvictsTheEarliest(ids: seq<Id>, manifests: map<Id, Manifest>, name: string) returns (i: nat)
    requires ids != []
    ensures i < |ids| && ToEvict(ids, manifests, name) == ids[i]
    ensures forall j :: 0 <= j < i ==> !(ids[j] in manifests && manifests[ids[j]].name == name)
    ensures (ids[i] in manifests && manifests[ids[i]].name == name)
         || (i == 0 && forall j :: 0 <= j < |ids| ==> !(ids[j] in manifests && manifests[ids[j]].name == name))
  {
    hide FirstNamed;
    i := FirstNamedIs(ids, manifests, name);
    if i == |ids| {
      i := 0;
    }
  }

  lemma {:induction false} PutKeeps(ids: seq<Id>, w: Id)
    ensures w in Put(ids, w) && forall x :: x != w ==> (x in Put(ids, w) <==> x in ids)
  {
    forall x | x != w
      ensures x in Put(ids, w) <==> x in ids
    {
      RemovedKeeps(ids, w, x);
    }
  }

  /** What comes of a component that asks for a worker, and when. */
  lemma {:induction false} DispatchSpelledOut(compat: Compat, numSlot: nat, p: Pool, c: Component)
    requires NoDuplicates(p.cached)
    ensures var usable := exists w :: w in p.cached && w in p.manifests && compat(p.manifests[w], c);
      match Dispatch(compat, numSlot, p, c)
      case Reused(w, q) =>
        && w in p.cached && w in p.manifests && compat(p.manifests[w], c) && w !in q.cached && w in q.active
        && (forall x :: x != w ==> (x in q.active <==> x in p.active))
        && q.arriving == p.arriving && q.waiting == p.waiting && q.manifests.Keys == p.manifests.Keys
        && (forall x :: x in p.manifests && x != w ==> q.manifests[x] == p.manifests[x])
        && q.manifests[w] == Manifest(c.manifest.name, c.manifest.version, p.manifests[w].packages)
      case Started(None, q) =>
        !usable && |p.active| + |p.cached| < numSlot && q == p.(waiting := p.waiting + [c])
      case Started(Some(w), q) =>
        && !usable && |p.active| < numSlot <= |p.active| + |p.cached|
        && w in p.cached && w !in q.cached && q.waiting == p.waiting + [c]
        && q.active == p.active && q.arriving == p.arriving && q.manifests == p.manifests
      case PoolFull => !usable && |p.active| >= numSlot
      case NothingToEvict => false
  {
    hide FirstCompatible, ToEvict;
    var i := FirstCompatibleIs(compat, p.cached, p.manifests, c);
    var d := Dispatch(compat, numSlot, p, c);
    if i < |p.cached| {
      RemovedNoDuplicates(p.cached, p.cached[i]);
      PutKeeps(p.active, p.cached[i]);
    } else {
      assert forall w :: w in p.cached ==> exists j :: 0 <= j < |p.cached| && p.cached[j] == w;
      if d.Started? && d.evicted.Some? {
        RemovedNoDuplicates(p.cached, d.evicted.value);
      }
    }
  }

  /** The cached workers that remain keep their order: one is gone, and before it none that could be used as well. */
  lemma {:induction false} CachedAfterDispatch(compat: Compat, numSlot: nat, p: Pool, c: Component) returns (i: nat)
    requires NoDuplicates(p.cached)
    ensures match Dispatch(compat, numSlot, p, c)
      case Reused(w, q) =>
        && i < |p.cached| && w == p.cached[i] && q.cached == p.cached[..i] + p.cached[i + 1..]
        && forall j :: 0 <= j < i ==> !(p.cached[j] in p.manifests && compat(p.manifests[p.cached[j]], c))
      case Started(Some(w), q) =>
        var name := c.manifest.name;
        && i < |p.cached| && w == p.cached[i] && q.cached == p.cached[..i] + p.cached[i + 1..]
        && (forall j :: 0 <= j < i ==> !(p.cached[j] in p.manifests && p.manifests[p.cached[j]].name == name))
        && ((p.cached[i] in p.manifests && p.manifests[p.cached[i]].name == name)
            || (i == 0 && forall j :: 0 <= j < |p.cached| ==>
                  !(p.cached[j] in p.manifests && p.manifests[p.cached[j]].name == name)))
      case Started(None, q) => q.cached == p.cached
      case PoolFull => true
      case NothingToEvict => true
  {
    hide FirstCompatible, ToEvict;
    i := FirstCompatibleIs(compat, p.cached, p.manifests, c);
    var d := Dispatch(compat, numSlot, p, c);
    if i < |p.cached| {
      RemovedAt(p.cached, i);
    } else if d.Started? && d.evicted.Some? {
      i := EvictsTheEarliest(p.cached, p.manifests, c.manifest.name);
      RemovedAt(p.cached, i);
    }
  }

  /** Of an arriving manifest all is taken, but for the name and version of a worker that has both. */
  lemma {:induction false} ReceivedSpelledOut(current: Option<Manifest>, arrived: Manifest)
    ensures var m := Received(current, arrived);
      && m.packages == arrived.packages
      && if current.Some? && current.value.name != "" && current.value.version != ""
         then m.name == current.value.name && m.version == current.value.version
         else m.name == arrived.name && m.version == arrived.version
  {
  }

  /** A worker that is ready takes the component that has waited longest, or waits among the cached ones. */
  lemma {:induction false} ReadySpelledOut(p: Pool, w: Id)
    requires NoDuplicates(p.cached) && NoDuplicates(p.active) && w !in p.cached && w !in p.active && w in p.manifests
    ensures var (q, taken) := WorkerReady(p, w);
      && q.manifests.Keys == p.manifests.Keys
      && (forall x :: x in p.manifests && x != w ==> q.manifests[x] == p.manifests[x])
      && if p.waiting == [] then taken == None && q == p.(cached := p.cached + [w])
         else
           && taken == Some(p.waiting[0]) && q.waiting == p.waiting[1..] && q.active == p.active + [w]
           && q.cached == p.cached && w in q.manifests
           && q.manifests[w].name == p.waiting[0].manifest.name
           && q.manifests[w].version == p.waiting[0].manifest.version
           && q.manifests[w].packages == p.manifests[w].packages
           && (NoDuplicates(p.arriving) ==> forall x :: x in q.arriving <==> x in p.arriving && x != w)
  {
    RemovedAt(p.cached + [w], |p.cached|);
    if NoDuplicates(p.arriving) {
      RemovedNoDuplicates(p.arriving, w);
    }
  }

  /** A worker that is done goes from the active ones to the end of the cached ones. */
  lemma {:induction false} CacheSpelledOut(p: Pool, w: Id)
    requires NoDuplicates(p.active) && w !in p.cached
    ensures CacheWorker(p, w).Some? <==> w in p.active
    ensures forall i :: 0 <= i < |p.active| && p.active[i] == w ==>
      CacheWorker(p, w) == Some(p.(active := p.active[..i] + p.active[i + 1..], cached := p.cached + [w]))
  {
    forall i | 0 <= i < |p.active| && p.active[i] == w
      ensures Removed(p.active, w) == p.active[..i] + p.active[i + 1..]
    {
      RemovedAt(p.active, i);
    }
  }
}
