/**
 * The coordinator and its workers as a state machine: the trial manager submits components one by one, the scheduler
 * runs on its own strand, and every connection delivers its messages in order.
 */
module Protocol {
  import opened Sequences
  import opened Wrappers
  import opened WorkerPool

  datatype Config = Config(numSlot: nat, compat: Compat)

  /** Messages to a worker. */
  datatype Down = RequestManifest | Execute(c: Component) | Exit

  /** Messages to the coordinator; a refreshed manifest says which component it follows. */
  datatype Up = Ready | ResponseManifest(manifest: Manifest, after: Option<nat>) | Done(c: nat) | Bye

  /** Work queued on a worker's component strand. */
  datatype Job = Capture | Run(c: Component)

  /** One worker process with its two message queues. */
  datatype Link = Link(alive: bool, down: seq<Down>, jobs: seq<Job>, up: seq<Up>)

  /** Where the thread that runs the trial manager is within `OnNewComponent`. */
  datatype Manager = Idle | Posted(c: Component) | Promised(c: Component) | Holding(c: Component)

  /** The function posted to the lifecycle strand. */
  datatype Strand = Empty | Queued(c: Component) | Locking(c: Component)

  /**
   * `locked` is the lifecycle mutex, `unlocks` counts handlers between caching a worker and unlocking, and `lost`
   * says that such an unlock found the mutex free. The last four fields record, by component, what has happened.
   */
  datatype State = State(
    pool: Pool,
    links: map<Id, Link>,
    handlers: set<Id>,
    manager: Manager,
    strand: Strand,
    locked: bool,
    unlocks: nat,
    lost: bool,
    ended: bool,
    exited: bool,
    failed: bool,
    submitted: seq<nat>,
    refreshed: seq<nat>,
    done: seq<nat>,
    returned: seq<nat>)

  const INITIAL := State(EMPTY_POOL, map[], {}, Idle, Empty, false, 0, false, false, false, false, [], [], [], [])

  datatype Action =
    | Submit(c: Component)
    | RunDispatch(n: Id)
    | StrandLock
    | ManagerLock
    | ManagerUnlock
    | Handle(id: Id)
    | HandlerUnlock
    | EndLifecycle
    | Receive(id: Id)
    | Work(id: Id, manifest: Manifest)

  function Send(s: State, id: Id, m: Down): State
  {
    if id in s.handlers && id in s.links
    then s.(links := s.links[id := s.links[id].(down := s.links[id].down + [m])])
    else s.(failed := true)
  }

  // ---------- The coordinator ----------

  /** A new worker process connects and announces itself. */
  function Spawned(s: State, n: Id): State
  {
    s.(links := s.links[n := Link(true, [], [], [Ready])])
  }

  function Dispatched(cfg: Config, s: State, n: Id): State
    requires s.strand.Queued?
  {
    var c, t := s.strand.c, s.(strand := Locking(s.strand.c));
    match Dispatch(cfg.compat, cfg.numSlot, s.pool, c)
    case Reused(w, p) => Send(t.(pool := p), w, Execute(c))
    case Started(None, p) => Spawned(t.(pool := p), n)
    case Started(Some(w), p) => Spawned(Send(t.(pool := p), w, Exit), n)
    case PoolFull => t.(failed := true)
    case NothingToEvict => t.(failed := true)
  }

  function HandledManifest(s: State, id: Id, arrived: Manifest, after: Option<nat>): State
  {
    if !HasWorker(s.pool, id) then s else
    var known := if id in s.pool.manifests then Some(s.pool.manifests[id]) else None;
    var p := s.pool.(manifests := s.pool.manifests[id := Received(known, arrived)]);
    if known.Some? then
      s.(pool := p, refreshed := s.refreshed + if after.Some? then [after.value] else [])
    else
      var (q, c) := WorkerReady(p, id);
      if c.Some? then Send(s.(pool := q), id, Execute(c.value)) else s.(pool := q)
  }

  function Handled(s: State, id: Id, m: Up): State
  {
    match m
    case Ready =>
      Send(s.(pool := s.pool.(arriving := s.pool.arriving + [id]), handlers := s.handlers + {id}), id, RequestManifest)
    case ResponseManifest(arrived, after) => HandledManifest(s, id, arrived, after)
    case Done(c) =>
      if !HasWorker(s.pool, id) then s else
      (match CacheWorker(s.pool, id)
       case Some(p) => s.(pool := p, unlocks := s.unlocks + 1, done := s.done + [c])
       case None => s.(failed := true))
    case Bye =>
      var t := s.(handlers := s.handlers - {id});
      t.(exited := t.handlers == {})
  }

  /** The exits sent to all connected workers when the lifecycle is over. */
  function ExitsSent(links: map<Id, Link>, handlers: set<Id>): map<Id, Link>
  {
    map id | id in links :: if id in handlers then links[id].(down := links[id].down + [Exit]) else links[id]
  }

  // ---------- The workers ----------

  function Delivered(l: Link): Link
    requires l.down != []
  {
    var t := l.(down := l.down[1..]);
    match l.down[0]
    case RequestManifest => t.(jobs := t.jobs + [Capture])
    case Execute(c) => t.(jobs := t.jobs + [Run(c)])
    case Exit => t.(up := t.up + [Bye], alive := false, jobs := [])
  }

  function Worked(l: Link, m: Manifest): Link
    requires l.jobs != []
  {
    var t := l.(jobs := l.jobs[1..]);
    match l.jobs[0]
    case Capture => t.(up := t.up + [ResponseManifest(m, None)])
    case Run(c) => t.(up := t.up + [ResponseManifest(m, Some(c.id)), Done(c.id)])
  }

  // ---------- Steps ----------

  predicate Enabled(s: State, a: Action)
  {
    !s.exited && !s.failed &&
    match a
    case Submit(c) => s.manager.Idle? && !s.ended
    case RunDispatch(n) => s.strand.Queued? && n !in s.links
    case StrandLock => s.strand.Locking? && !s.locked && s.manager.Posted?
    case ManagerLock => s.manager.Promised? && !s.locked
    case ManagerUnlock => s.manager.Holding?
    case Handle(id) => id in s.links && s.links[id].up != []
    case HandlerUnlock => s.unlocks > 0
    case EndLifecycle => s.manager.Idle? && !s.ended
    case Receive(id) => id in s.links && s.links[id].alive && s.links[id].down != []
    case Work(id, m) => id in s.links && s.links[id].alive && s.links[id].jobs != []
  }

  function Step(cfg: Config, s: State, a: Action): State
    requires Enabled(s, a)
  {
    match a
    case Submit(c) => s.(manager := Posted(c), strand := Queued(c), submitted := s.submitted + [c.id])
    case RunDispatch(n) => Dispatched(cfg, s, n)
    case StrandLock => s.(locked := true, strand := Empty, manager := Promised(s.manager.c))
    case ManagerLock => s.(locked := true, manager := Holding(s.manager.c))
    case ManagerUnlock => s.(locked := false, manager := Idle, returned := s.returned + [s.manager.c.id])
    case Handle(id) =>
      var l := s.links[id];
      Handled(s.(links := s.links[id := l.(up := l.up[1..])]), id, l.up[0])
    case HandlerUnlock => s.(locked := false, unlocks := s.unlocks - 1, lost := s.lost || !s.locked)
    case EndLifecycle => s.(ended := true, links := ExitsSent(s.links, s.handlers))
    case Receive(id) => s.(links := s.links[id := Delivered(s.links[id])])
    case Work(id, m) => s.(links := s.links[id := Worked(s.links[id], m)])
  }

  /** The state after a run, if every step of it was enabled. */
  function After(cfg: Config, run: seq<Action>): Option<State>
  {
    if run == [] then Some(INITIAL) else
    match After(cfg, run[..|run| - 1])
    case None => None
    case Some(s) => if Enabled(s, run[|run| - 1]) then Some(Step(cfg, s, run[|run| - 1])) else None
  }

  // ---------- Threads ----------

  /** The I/O threads that are in the middle of something: at the mutex, or between caching a worker and unlocking. */
  function Engaged(s: State): nat
  {
    s.unlocks + if s.strand.Locking? then 1 else 0
  }

  /** A thread must be free to handle a message or to run what is posted to the strand. */
  predicate Allowed(threads: nat, s: State, a: Action)
  {
    a.Handle? || a.RunDispatch? ==> Engaged(s) < threads
  }

  /** The same as `After` for runs that a number of I/O threads can perform. */
  function AfterOn(cfg: Config, threads: nat, run: seq<Action>): Option<State>
  {
    if run == [] then Some(INITIAL) else
    var a := run[|run| - 1];
    match AfterOn(cfg, threads, run[..|run| - 1])
    case None => None
    case Some(s) => if Enabled(s, a) && Allowed(threads, s, a) then Some(Step(cfg, s, a)) else None
  }

  lemma {:induction false} AfterOnThreads(cfg: Config, threads: nat, run: seq<Action>)
    requires AfterOn(cfg, threads, run).Some?
    ensures After(cfg, run) == AfterOn(cfg, threads, run)
  {
    if run == [] {
    } else {
      hide Enabled, Step, Allowed;
      AfterOnThreads(cfg, threads, run[..|run| - 1]);
    }
  }

  // ---------- The invariant ----------

  /** How far the one outstanding component is; larger `k` is earlier. */
  datatype Stage =
    | Quiet
    | Fetching(id: Id, k: nat, c: Component)
    | Running(id: Id, k: nat, c: Component)
    | Finished(c: Component)

  predicate Busy(g: Stage)
  {
    g.Fetching? || g.Running?
  }

  /** The worker's manifest carries the name and version of the component it was given. */
  predicate Named(m: Manifest, c: Component)
  {
    c.manifest.name != "" && c.manifest.version != "" ==> m.name == c.manifest.name && m.version == c.manifest.version
  }

  predicate PoolOk(cfg: Config, p: Pool, g: Stage)
  {
    && NoDuplicates(p.cached)
    && |p.cached| + (if Busy(g) then 1 else 0) <= cfg.numSlot
    && (forall id :: id in p.cached ==> id in p.manifests)
    && (Busy(g) ==> g.id !in p.cached)
    && match g
       case Fetching(id, k, c) =>
         && p.active == [] && p.waiting == [c] && p.arriving == (if k == 4 then [] else [id]) && id !in p.manifests
       case Running(id, k, c) =>
         && p.active == [id] && p.waiting == [] && p.arriving == [] && id in p.manifests
         && Named(p.manifests[id], c)
       case _ => p.active == [] && p.waiting == [] && p.arriving == []
  }

  /** The link of the worker that the outstanding component is on. */
  predicate BusyLink(g: Stage, l: Link, registered: bool)
    requires Busy(g)
  {
    && l.alive && registered == !(g.Fetching? && g.k == 4)
    && match g
       case Fetching(_, k, c) =>
         if k == 4 then l.down == [] && l.jobs == [] && l.up == [Ready]
         else if k == 3 then l.down == [RequestManifest] && l.jobs == [] && l.up == []
         else if k == 2 then l.down == [] && l.jobs == [Capture] && l.up == []
         else
           k == 1 && l.down == [] && l.jobs == [] && |l.up| == 1 && l.up[0].ResponseManifest? && l.up[0].after == None
       case Running(_, k, c) =>
         if k == 4 then l.down == [Execute(c)] && l.jobs == [] && l.up == []
         else if k == 3 then l.down == [] && l.jobs == [Run(c)] && l.up == []
         else if k == 2 then
           && l.down == [] && l.jobs == [] && |l.up| == 2
           && l.up[0].ResponseManifest? && l.up[0].after == Some(c.id) && l.up[1] == Done(c.id)
         else k == 1 && l.down == [] && l.jobs == [] && l.up == [Done(c.id)]
  }

  /** The link of a worker that has been told to exit. */
  predicate LeavingLink(l: Link, registered: bool)
  {
    && l.jobs == [] && (forall i :: 0 <= i < |l.down| ==> l.down[i] == Exit)
    && if l.alive then l.down != [] && l.up == [] && registered
       else (l.up == [Bye] && registered) || (l.up == [] && !registered)
  }

  predicate LinkOk(cached: seq<Id>, ended: bool, g: Stage, id: Id, l: Link, registered: bool)
  {
    if Busy(g) && id == g.id then BusyLink(g, l, registered)
    else if id in cached && !ended then l == Link(true, [], [], []) && registered
    else LeavingLink(l, registered)
  }

  /** Workers have been told to exit before the end of the lifecycle only with all slots taken. */
  predicate Evicted(cached: seq<Id>, g: Stage, id: Id)
  {
    !(Busy(g) && id == g.id) && id !in cached
  }

  ghost predicate LinksOk(cfg: Config, cached: seq<Id>, ended: bool, links: map<Id, Link>, handlers: set<Id>, g: Stage)
  {
    && (Busy(g) ==> g.id in links)
    && (forall id :: id in cached ==> id in links)
    && (forall id :: id in handlers ==> id in links)
    && (forall id :: id in links ==> LinkOk(cached, ended, g, id, links[id], id in handlers))
    && (forall id :: id in links && Evicted(cached, g, id) ==> |cached| + (if Busy(g) then 1 else 0) == cfg.numSlot)
  }

  /** The scheduler has dispatched `c`, and the manager has not been let through. */
  predicate Waiting(s: State, c: Component)
  {
    || (s.manager == Posted(c) && s.strand == Locking(c) && !s.locked)
    || (s.manager == Promised(c) && s.strand.Empty? && s.locked)
  }

  predicate ControlOk(s: State, g: Stage)
  {
    match g
    case Quiet =>
      && !s.locked && s.unlocks == 0 && !s.lost
      && ((s.manager.Idle? && s.strand.Empty?)
          || (s.manager.Posted? && s.strand == Queued(s.manager.c) && !s.ended))
    case Fetching(_, _, c) => !s.ended && s.unlocks == 0 && !s.lost && Waiting(s, c)
    case Running(_, _, c) => !s.ended && s.unlocks == 0 && !s.lost && Waiting(s, c)
    case Finished(c) =>
      && !s.ended
      && match s.manager
         case Idle => false
         case Posted(d) => d == c && s.strand == Locking(c) && !s.locked && s.unlocks == (if s.lost then 0 else 1)
         case Promised(d) =>
           && d == c && s.strand.Empty?
           && (if s.lost then s.locked && s.unlocks == 0 else s.locked == (s.unlocks == 1) && s.unlocks <= 1)
         case Holding(d) => d == c && s.strand.Empty? && s.locked && s.unlocks == 0 && !s.lost
  }

  predicate HistoryOk(s: State, g: Stage)
  {
    match g
    case Quiet =>
      && s.refreshed == s.done == s.returned
      && s.submitted == s.returned + if s.manager.Posted? then [s.manager.c.id] else []
    case Fetching(_, _, c) =>
      s.refreshed == s.done == s.returned && s.submitted == s.returned + [c.id]
    case Running(_, k, c) =>
      && s.done == s.returned && s.submitted == s.returned + [c.id]
      && s.refreshed == s.returned + if k == 1 then [c.id] else []
    case Finished(c) => s.submitted == s.refreshed == s.done == s.returned + [c.id]
  }

  ghost predicate Inv(cfg: Config, s: State, g: Stage)
  {
    && PoolOk(cfg, s.pool, g)
    && LinksOk(cfg, s.pool.cached, s.ended, s.links, s.handlers, g)
    && ControlOk(s, g)
    && HistoryOk(s, g)
    && !s.failed
    && (s.exited ==> s.handlers == {})
    && (forall id :: id in s.pool.manifests ==> id in s.links)
    && (s.exited && cfg.numSlot >= 2 ==> s.ended)
  }

  /** The stage after a step. */
  function Next(cfg: Config, s: State, a: Action, g: Stage): Stage
  {
    match a
    case RunDispatch(n) =>
      if !s.strand.Queued? then g else
      (match Dispatch(cfg.compat, cfg.numSlot, s.pool, s.strand.c)
       case Reused(w, _) => Running(w, 4, s.strand.c)
       case _ => Fetching(n, 4, s.strand.c))
    case ManagerUnlock => Quiet
    case Handle(id) =>
      if g.Fetching? && g.id == id && g.k == 4 then Fetching(id, 3, g.c)
      else if g.Fetching? && g.id == id && g.k == 1 then Running(id, 4, g.c)
      else if g.Running? && g.id == id && g.k == 2 then Running(id, 1, g.c)
      else if g.Running? && g.id == id && g.k == 1 then Finished(g.c)
      else g
    case Receive(id) =>
      if g.Fetching? && g.id == id then Fetching(id, 2, g.c)
      else if g.Running? && g.id == id then Running(id, 3, g.c)
      else g
    case Work(id, _) =>
      if g.Fetching? && g.id == id then Fetching(id, 1, g.c)
      else if g.Running? && g.id == id then Running(id, 2, g.c)
      else g
    case _ => g
  }
}
