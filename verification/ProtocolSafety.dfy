/** Every step of the protocol keeps the invariant, so every reachable state is safe. */
module ProtocolSafety {
  import opened Sequences
  import opened Wrappers
  import opened WorkerPool
  import opened Protocol

  predicate SameBusy(g: Stage, h: Stage)
  {
    Busy(g) == Busy(h) && (Busy(g) ==> g.id == h.id)
  }

  /** One link changes, and with it perhaps whether its worker is registered. */
  lemma {:induction false} OneLinkChanges(cfg: Config, cached: seq<Id>, ended: bool, links: map<Id, Link>,
                                          handlers: set<Id>, g: Stage, id: Id, l: Link, handlers': set<Id>, h: Stage)
    requires LinksOk(cfg, cached, ended, links, handlers, g) && id in links && SameBusy(g, h)
    requires h == g || (Busy(g) && id == g.id)
    requires forall x :: x != id ==> (x in handlers <==> x in handlers')
    requires LinkOk(cached, ended, h, id, l, id in handlers')
    ensures LinksOk(cfg, cached, ended, links[id := l], handlers', h)
  {
    hide BusyLink, LeavingLink;
  }

  lemma {:induction false} LinkOfId(cfg: Config, s: State, g: Stage, id: Id)
    requires LinksOk(cfg, s.pool.cached, s.ended, s.links, s.handlers, g) && id in s.links
    ensures LinkOk(s.pool.cached, s.ended, g, id, s.links[id], id in s.handlers)
  {
  }

  lemma {:induction false} ReceiveKeepsInv(cfg: Config, s: State, g: Stage, id: Id)
    requires Inv(cfg, s, g) && Enabled(s, Receive(id))
    ensures Inv(cfg, Step(cfg, s, Receive(id)), Next(cfg, s, Receive(id), g))
  {
    var h := Next(cfg, s, Receive(id), g);
    LinkOfId(cfg, s, g, id);
    OneLinkChanges(cfg, s.pool.cached, s.ended, s.links, s.handlers, g, id, Delivered(s.links[id]), s.handlers, h);
  }

  lemma {:induction false} WorkKeepsInv(cfg: Config, s: State, g: Stage, id: Id, m: Manifest)
    requires Inv(cfg, s, g) && Enabled(s, Work(id, m))
    ensures Inv(cfg, Step(cfg, s, Work(id, m)), Next(cfg, s, Work(id, m), g))
  {
    var h := Next(cfg, s, Work(id, m), g);
    LinkOfId(cfg, s, g, id);
    OneLinkChanges(cfg, s.pool.cached, s.ended, s.links, s.handlers, g, id, Worked(s.links[id], m), s.handlers, h);
  }

  // ---------- The coordinator handles a message ----------

  /** Only the worker of the outstanding component, or one that leaves, has anything to say. */
  lemma {:induction false} Sender(cfg: Config, s: State, g: Stage, id: Id)
    requires LinksOk(cfg, s.pool.cached, s.ended, s.links, s.handlers, g) && id in s.links && s.links[id].up != []
    ensures var m := s.links[id].up[0];
      match m
      case Ready => g == Fetching(id, 4, g.c) && s.links[id] == Link(true, [], [], [m])
      case ResponseManifest(_, after) =>
        && id in s.handlers
        && if after == None then g == Fetching(id, 1, g.c) && s.links[id] == Link(true, [], [], [m])
           else
             && g == Running(id, 2, g.c) && after.value == g.c.id
             && s.links[id] == Link(true, [], [], [m, Done(g.c.id)])
      case Done(c) =>
        g == Running(id, 1, g.c) && c == g.c.id && s.links[id] == Link(true, [], [], [m]) && id in s.handlers
      case Bye =>
        && (s.ended || id !in s.pool.cached) && !(Busy(g) && g.id == id) && id in s.handlers
        && !s.links[id].alive && s.links[id].up == [Bye] && LeavingLink(s.links[id].(up := []), false)
  {
    LinkOfId(cfg, s, g, id);
  }

  lemma {:induction false} BusyLinkChanges(cfg: Config, s: State, g: Stage, l: Link, handlers: set<Id>, h: Stage)
    requires LinksOk(cfg, s.pool.cached, s.ended, s.links, s.handlers, g) && Busy(g) && SameBusy(g, h)
    requires handlers == s.handlers || handlers == s.handlers + {g.id}
    requires BusyLink(h, l, g.id in handlers)
    ensures LinksOk(cfg, s.pool.cached, s.ended, s.links[g.id := l], handlers, h)
  {
    OneLinkChanges(cfg, s.pool.cached, s.ended, s.links, s.handlers, g, g.id, l, handlers, h);
  }

  lemma {:induction false} ReadyStep(cfg: Config, s: State, id: Id)
    requires Enabled(s, Handle(id)) && s.links[id] == Link(true, [], [], [Ready]) && s.pool.arriving == []
    ensures Step(cfg, s, Handle(id)) == s.(
      pool := s.pool.(arriving := [id]),
      handlers := s.handlers + {id},
      links := s.links[id := Link(true, [RequestManifest], [], [])])
  {
    assert [Ready][1..] == [] && [] + [RequestManifest] == [RequestManifest] && [] + [id] == [id];
    var l := Link(true, [RequestManifest], [], []);
    assert s.links[id := Link(true, [], [], [])][id := l] == s.links[id := l];
  }

  lemma {:induction false} ReadyKeepsInv(cfg: Config, s: State, g: Stage, id: Id)
    requires Inv(cfg, s, g) && Enabled(s, Handle(id)) && s.links[id].up[0] == Ready
    ensures Inv(cfg, Step(cfg, s, Handle(id)), Next(cfg, s, Handle(id), g))
  {
    hide LinksOk, LinkOk, Step;
    Sender(cfg, s, g, id);
    ReadyStep(cfg, s, id);
    BusyLinkChanges(cfg, s, g, Link(true, [RequestManifest], [], []), s.handlers + {id}, Fetching(id, 3, g.c));
  }

  lemma {:induction false} RefreshKeepsInv(cfg: Config, s: State, g: Stage, id: Id)
    requires Inv(cfg, s, g) && Enabled(s, Handle(id))
    requires s.links[id].up[0].ResponseManifest? && s.links[id].up[0].after != None
    ensures Inv(cfg, Step(cfg, s, Handle(id)), Next(cfg, s, Handle(id), g))
  {
    hide LinksOk, LinkOk;
    Sender(cfg, s, g, id);
    BusyLinkChanges(cfg, s, g, Link(true, [], [], [Done(g.c.id)]), s.handlers, Running(id, 1, g.c));
  }

  lemma {:induction false} PutThenRemoved(ids: seq<Id>, w: Id)
    requires NoDuplicates(ids) && w !in ids
    ensures Removed(Put(ids, w), w) == ids
  {
    assert NoDuplicates(ids + [w]) && (ids + [w])[|ids|] == w;
    RemovedAt(ids + [w], |ids|);
  }

  lemma {:induction false} FetchingPool(cfg: Config, p: Pool, g: Stage)
    requires PoolOk(cfg, p, g) && g.Fetching? && g.k == 1
    ensures p.arriving == [g.id] && g.id !in p.manifests
  {
  }

  lemma {:induction false} OnlyOne(id: Id, c: Component)
    ensures Removed([id], id) == [] && Put([], id) == [id] && [c][1..] == []
  {
  }

  lemma {:induction false} TakenPool(p: Pool, id: Id, c: Component, arrived: Manifest)
    requires p.arriving == [id] && p.waiting == [c] && p.active == [] && NoDuplicates(p.cached) && id !in p.cached
    ensures var (q, taken) := WorkerReady(p.(manifests := p.manifests[id := arrived]), id);
            && taken == Some(c) && q.cached == p.cached && q.active == [id] && q.waiting == [] && q.arriving == []
            && q.manifests.Keys == p.manifests.Keys + {id} && Named(q.manifests[id], c)
  {
    hide Removed, Put, NoDuplicates;
    PutThenRemoved(p.cached, id);
    OnlyOne(id, c);
  }

  /** A new worker that takes the waiting component goes straight to the active ones. */
  lemma {:induction false} WaitingTaken(cfg: Config, p: Pool, g: Stage, arrived: Manifest)
    requires PoolOk(cfg, p, g) && g.Fetching? && g.k == 1
    ensures var (q, c) := WorkerReady(p.(manifests := p.manifests[g.id := arrived]), g.id);
            c == Some(g.c) && q.cached == p.cached && PoolOk(cfg, q, Running(g.id, 4, g.c))
            && q.manifests.Keys == p.manifests.Keys + {g.id}
  {
    hide WorkerReady;
    TakenPool(p, g.id, g.c, arrived);
  }

  lemma {:induction false} FirstManifestHandled(s: State, id: Id, arrived: Manifest, q: Pool, c: Component)
    requires id in s.pool.arriving && id !in s.pool.manifests && id in s.handlers && id in s.links
    requires WorkerReady(s.pool.(manifests := s.pool.manifests[id := arrived]), id) == (q, Some(c))
    ensures HandledManifest(s, id, arrived, None)
         == s.(pool := q, links := s.links[id := s.links[id].(down := s.links[id].down + [Execute(c)])])
  {
    hide WorkerReady;
  }

  lemma {:induction false} FirstManifestStep(cfg: Config, s: State, id: Id, m: Up, q: Pool, c: Component)
    requires Enabled(s, Handle(id)) && s.pool.arriving == [id] && id !in s.pool.manifests && id in s.handlers
    requires m.ResponseManifest? && m.after == None && s.links[id] == Link(true, [], [], [m])
    requires WorkerReady(s.pool.(manifests := s.pool.manifests[id := m.manifest]), id) == (q, Some(c))
    ensures Step(cfg, s, Handle(id)) == s.(pool := q, links := s.links[id := Link(true, [Execute(c)], [], [])])
  {
    hide WorkerReady, HandledManifest;
    assert [m][1..] == [] && [] + [Execute(c)] == [Execute(c)];
    var t := s.(links := s.links[id := Link(true, [], [], [])]);
    FirstManifestHandled(t, id, m.manifest, q, c);
    assert t.links[id := Link(true, [Execute(c)], [], [])] == s.links[id := Link(true, [Execute(c)], [], [])];
  }

  lemma {:induction false} FirstManifestKeepsInv(cfg: Config, s: State, g: Stage, id: Id)
    requires Inv(cfg, s, g) && Enabled(s, Handle(id))
    requires s.links[id].up[0].ResponseManifest? && s.links[id].up[0].after == None
    ensures Inv(cfg, Step(cfg, s, Handle(id)), Next(cfg, s, Handle(id), g))
  {
    hide LinksOk, LinkOk, WorkerReady, Step, PoolOk;
    Sender(cfg, s, g, id);
    WaitingTaken(cfg, s.pool, g, s.links[id].up[0].manifest);
    var m := s.links[id].up[0];
    FetchingPool(cfg, s.pool, g);
    FirstManifestStep(cfg, s, id, m, WorkerReady(s.pool.(manifests := s.pool.manifests[id := m.manifest]), id).0, g.c);
    BusyLinkChanges(cfg, s, g, Link(true, [Execute(g.c)], [], []), s.handlers, Running(id, 4, g.c));
  }

  lemma {:induction false} DoneStep(cfg: Config, s: State, g: Stage)
    requires g.Running? && g.k == 1 && PoolOk(cfg, s.pool, g) && Enabled(s, Handle(g.id))
    requires s.links[g.id] == Link(true, [], [], [Done(g.c.id)])
    ensures Step(cfg, s, Handle(g.id)) == s.(
      pool := s.pool.(active := [], cached := Put(s.pool.cached, g.id)),
      unlocks := s.unlocks + 1, done := s.done + [g.c.id], links := s.links[g.id := Link(true, [], [], [])])
  {
    hide Put;
    assert [Done(g.c.id)][1..] == [];
    assert g.id in s.pool.active;
    assert Removed(s.pool.active, g.id) == [];
  }

  lemma {:induction false} BusyBecomesCached(cfg: Config, s: State, g: Stage, l: Link)
    requires LinksOk(cfg, s.pool.cached, s.ended, s.links, s.handlers, g) && g.Running? && g.id !in s.pool.cached
    requires !s.ended && g.id in s.handlers && l == Link(true, [], [], [])
    ensures LinksOk(cfg, Put(s.pool.cached, g.id), s.ended, s.links[g.id := l], s.handlers, Finished(g.c))
  {
    hide BusyLink, LeavingLink;
  }

  lemma {:induction false} DoneKeepsInv(cfg: Config, s: State, g: Stage, id: Id)
    requires Inv(cfg, s, g) && Enabled(s, Handle(id)) && s.links[id].up[0].Done?
    ensures Inv(cfg, Step(cfg, s, Handle(id)), Next(cfg, s, Handle(id), g))
  {
    hide LinksOk, LinkOk, Step, Removed;
    Sender(cfg, s, g, id);
    DoneStep(cfg, s, g);
    BusyBecomesCached(cfg, s, g, Link(true, [], [], []));
    PutNoDuplicates(s.pool.cached, id);
  }

  /** With two slots or more, an evicted worker leaves a registered worker behind. */
  lemma {:induction false} OthersStay(cfg: Config, s: State, g: Stage, id: Id)
    requires Inv(cfg, s, g) && id in s.links && Evicted(s.pool.cached, g, id) && cfg.numSlot >= 2 && !s.ended
    ensures s.handlers - {id} != {}
  {
    hide BusyLink, LeavingLink;
    var other := s.pool.cached[0];
    LinkOfId(cfg, s, g, other);
    assert other in s.handlers - {id};
  }

  lemma {:induction false} ByeKeepsInv(cfg: Config, s: State, g: Stage, id: Id)
    requires Inv(cfg, s, g) && Enabled(s, Handle(id)) && s.links[id].up[0] == Bye
    ensures Inv(cfg, Step(cfg, s, Handle(id)), Next(cfg, s, Handle(id), g))
  {
    hide LinksOk, BusyLink, PoolOk;
    Sender(cfg, s, g, id);
    assert s.links[id].up[1..] == [];
    var l := s.links[id].(up := []);
    OneLinkChanges(cfg, s.pool.cached, s.ended, s.links, s.handlers, g, id, l, s.handlers - {id}, g);
    if cfg.numSlot >= 2 && !s.ended {
      OthersStay(cfg, s, g, id);
    }
  }

  lemma {:induction false} HandleKeepsInv(cfg: Config, s: State, g: Stage, id: Id)
    requires Inv(cfg, s, g) && Enabled(s, Handle(id))
    ensures Inv(cfg, Step(cfg, s, Handle(id)), Next(cfg, s, Handle(id), g))
  {
    hide Inv, Step, Next;
    match s.links[id].up[0]
    case Ready => ReadyKeepsInv(cfg, s, g, id);
    case ResponseManifest(_, after) =>
      if after == None { FirstManifestKeepsInv(cfg, s, g, id); } else { RefreshKeepsInv(cfg, s, g, id); }
    case Done(_) => DoneKeepsInv(cfg, s, g, id);
    case Bye => ByeKeepsInv(cfg, s, g, id);
  }

  // ---------- The scheduler dispatches a component ----------

  lemma {:induction false} CachedBecomesBusy(cfg: Config, cached: seq<Id>, links: map<Id, Link>, handlers: set<Id>,
                                             w: Id, c: Component, rest: seq<Id>)
    requires LinksOk(cfg, cached, false, links, handlers, Quiet) && w in cached && w in handlers
    requires links[w] == Link(true, [], [], [])
    requires |rest| == |cached| - 1 && forall x :: x in rest <==> x in cached && x != w
    ensures LinksOk(cfg, rest, false, links[w := links[w].(down := links[w].down + [Execute(c)])], handlers,
                    Running(w, 4, c))
  {
    var g, l := Running(w, 4, c), links[w].(down := links[w].down + [Execute(c)]);
    assert [] + [Execute(c)] == [Execute(c)];
    assert BusyLink(g, l, true);
    hide BusyLink, LeavingLink;
  }

  lemma {:induction false} ReuseLinks(cfg: Config, s: State, g: Stage, w: Id, c: Component)
    requires Inv(cfg, s, g) && g == Quiet && w in s.pool.cached && !s.ended
    ensures w in s.handlers && w in s.links
    ensures LinksOk(cfg, Removed(s.pool.cached, w), s.ended,
                    s.links[w := s.links[w].(down := s.links[w].down + [Execute(c)])], s.handlers, Running(w, 4, c))
  {
    hide LeavingLink, BusyLink, ControlOk, HistoryOk;
    LinkOfId(cfg, s, g, w);
    RemovedNoDuplicates(s.pool.cached, w);
    CachedBecomesBusy(cfg, s.pool.cached, s.links, s.handlers, w, c, Removed(s.pool.cached, w));
  }

  lemma {:induction false} StartLinks(cfg: Config, s: State, g: Stage, n: Id, c: Component)
    requires Inv(cfg, s, g) && g == Quiet && n !in s.links && !s.ended && |s.pool.cached| < cfg.numSlot
    ensures LinksOk(cfg, s.pool.cached, s.ended, s.links[n := Link(true, [], [], [Ready])], s.handlers,
                    Fetching(n, 4, c))
  {
    hide LeavingLink;
  }

  lemma {:induction false} EvictLinks(cfg: Config, s: State, g: Stage, w: Id, n: Id, c: Component)
    requires Inv(cfg, s, g) && g == Quiet && w in s.pool.cached && n !in s.links && !s.ended
    requires |s.pool.cached| == cfg.numSlot
    ensures w in s.handlers && w in s.links
    ensures LinksOk(cfg, Removed(s.pool.cached, w), s.ended,
                    s.links[w := s.links[w].(down := s.links[w].down + [Exit])][n := Link(true, [], [], [Ready])],
                    s.handlers, Fetching(n, 4, c))
  {
    LinkOfId(cfg, s, g, w);
    RemovedNoDuplicates(s.pool.cached, w);
    assert LeavingLink(s.links[w].(down := s.links[w].down + [Exit]), true);
    hide LeavingLink;
  }

  lemma {:induction false} ReuseKeepsInv(cfg: Config, s: State, g: Stage, n: Id, w: Id)
    requires Inv(cfg, s, g) && Enabled(s, RunDispatch(n))
    requires FirstCompatible(cfg.compat, s.pool.cached, s.pool.manifests, s.strand.c) == Some(w)
    ensures Inv(cfg, Step(cfg, s, RunDispatch(n)), Running(w, 4, s.strand.c))
  {
    hide FirstCompatible, LinksOk, LinkOk, BusyLink, Removed;
    RemovedNoDuplicates(s.pool.cached, w);
    ReuseLinks(cfg, s, g, w, s.strand.c);
    assert Put([], w) == [w];
  }

  lemma {:induction false} StartKeepsInv(cfg: Config, s: State, g: Stage, n: Id)
    requires Inv(cfg, s, g) && Enabled(s, RunDispatch(n)) && |s.pool.cached| < cfg.numSlot
    requires FirstCompatible(cfg.compat, s.pool.cached, s.pool.manifests, s.strand.c) == None
    ensures Inv(cfg, Step(cfg, s, RunDispatch(n)), Fetching(n, 4, s.strand.c))
  {
    hide FirstCompatible, LinksOk, LinkOk, BusyLink;
    StartLinks(cfg, s, g, n, s.strand.c);
    assert [] + [s.strand.c] == [s.strand.c];
  }

  lemma {:induction false} EvictKeepsInv(cfg: Config, s: State, g: Stage, n: Id)
    requires cfg.numSlot >= 1 && Inv(cfg, s, g) && Enabled(s, RunDispatch(n)) && |s.pool.cached| >= cfg.numSlot
    requires FirstCompatible(cfg.compat, s.pool.cached, s.pool.manifests, s.strand.c) == None
    ensures Inv(cfg, Step(cfg, s, RunDispatch(n)), Fetching(n, 4, s.strand.c))
  {
    hide FirstCompatible, ToEvict, LinksOk, LinkOk, BusyLink, Removed;
    var w := ToEvict(s.pool.cached, s.pool.manifests, s.strand.c.manifest.name);
    RemovedNoDuplicates(s.pool.cached, w);
    EvictLinks(cfg, s, g, w, n, s.strand.c);
    assert [] + [s.strand.c] == [s.strand.c];
  }

  lemma {:induction false} DispatchEnabled(s: State, n: Id)
    requires Enabled(s, RunDispatch(n))
    ensures s.strand.Queued? && n !in s.links
  {
  }

  lemma {:induction false} DispatchedQuiet(cfg: Config, s: State, g: Stage, n: Id)
    requires Inv(cfg, s, g) && Enabled(s, RunDispatch(n))
    ensures g == Quiet && s.pool.active == []
  {
  }

  lemma {:induction false} DispatchKeepsInv(cfg: Config, s: State, g: Stage, n: Id)
    requires cfg.numSlot >= 1 && Inv(cfg, s, g) && Enabled(s, RunDispatch(n))
    ensures Inv(cfg, Step(cfg, s, RunDispatch(n)), Next(cfg, s, RunDispatch(n), g))
  {
    hide Inv, Step, Enabled, FirstCompatible;
    assert s.strand.Queued? by { DispatchEnabled(s, n); }
    match FirstCompatible(cfg.compat, s.pool.cached, s.pool.manifests, s.strand.c)
    case Some(w) =>
      ReuseKeepsInv(cfg, s, g, n, w);
    case None =>
      DispatchedQuiet(cfg, s, g, n);
      if |s.pool.cached| < cfg.numSlot {
        StartKeepsInv(cfg, s, g, n);
      } else {
        EvictKeepsInv(cfg, s, g, n);
      }
  }

  // ---------- The remaining steps ----------

  lemma {:induction false} SameLinks(cfg: Config, cached: seq<Id>, ended: bool, links: map<Id, Link>, handlers: set<Id>,
                                     g: Stage, h: Stage)
    requires LinksOk(cfg, cached, ended, links, handlers, g) && !Busy(g) && !Busy(h)
    ensures LinksOk(cfg, cached, ended, links, handlers, h)
  {
    hide LeavingLink;
  }

  lemma {:induction false} ExitingLinks(cfg: Config, cached: seq<Id>, links: map<Id, Link>, handlers: set<Id>)
    requires LinksOk(cfg, cached, false, links, handlers, Quiet)
    ensures LinksOk(cfg, cached, true, ExitsSent(links, handlers), handlers, Quiet)
  {
    var sent := ExitsSent(links, handlers);
    forall id | id in sent
      ensures LinkOk(cached, true, Quiet, id, sent[id], id in handlers)
    {
      assert LinkOk(cached, false, Quiet, id, links[id], id in handlers);
    }
  }

  lemma {:induction false} LocalKeepsInv(cfg: Config, s: State, g: Stage, a: Action)
    requires Inv(cfg, s, g) && Enabled(s, a)
    requires a.Submit? || a.StrandLock? || a.ManagerLock? || a.ManagerUnlock? || a.HandlerUnlock? || a.EndLifecycle?
    ensures Inv(cfg, Step(cfg, s, a), Next(cfg, s, a, g))
  {
    hide LinksOk;
    if a.ManagerUnlock? {
      SameLinks(cfg, s.pool.cached, s.ended, s.links, s.handlers, g, Quiet);
    } else if a.EndLifecycle? {
      ExitingLinks(cfg, s.pool.cached, s.links, s.handlers);
    }
  }

  lemma {:induction false} StepKeepsInv(cfg: Config, s: State, g: Stage, a: Action)
    requires cfg.numSlot >= 1 && Inv(cfg, s, g) && Enabled(s, a)
    ensures Inv(cfg, Step(cfg, s, a), Next(cfg, s, a, g))
  {
    hide Inv, Step, Next, Enabled;
    match a
    case RunDispatch(n) => DispatchKeepsInv(cfg, s, g, n);
    case Handle(id) => HandleKeepsInv(cfg, s, g, id);
    case Receive(id) => ReceiveKeepsInv(cfg, s, g, id);
    case Work(id, m) => WorkKeepsInv(cfg, s, g, id, m);
    case _ => LocalKeepsInv(cfg, s, g, a);
  }

  // ---------- Every reachable state is safe ----------

  lemma {:induction false} Reached(cfg: Config, run: seq<Action>) returns (g: Stage)
    requires cfg.numSlot >= 1 && After(cfg, run).Some?
    ensures Inv(cfg, After(cfg, run).value, g)
  {
    if run == [] {
      g := Quiet;
    } else {
      hide Inv, Step, Enabled, Next;
      var before := run[..|run| - 1];
      var h := Reached(cfg, before);
      StepKeepsInv(cfg, After(cfg, before).value, h, run[|run| - 1]);
      g := Next(cfg, After(cfg, before).value, run[|run| - 1], h);
    }
  }

  /** Worker processes that run but are neither active nor cached, and have not been told to exit. */
  function Starting(s: State): set<Id>
  {
    set id |
      id in s.links && s.links[id].alive && Exit !in s.links[id].down && id !in s.pool.active && id !in s.pool.cached
  }

  lemma {:induction false} OnlyOneStarts(cfg: Config, s: State, g: Stage)
    requires Inv(cfg, s, g)
    ensures Starting(s) <= if g.Fetching? then {g.id} else {}
  {
    forall id | id in Starting(s)
      ensures g.Fetching? && id == g.id
    {
      LinkOfId(cfg, s, g, id);
      assert s.links[id].down != [] ==> s.links[id].down[0] in s.links[id].down;
    }
  }

  lemma {:induction false} SubsetOfOne(a: set<Id>, b: set<Id>)
    requires a <= b
    ensures |a| <= |b|
    decreases a
  {
    if a == {} {
    } else {
      var x :| x in a;
      SubsetOfOne(a - {x}, b - {x});
    }
  }

  /**
   * Over every run: a worker is never both active and cached, one component at most is active or waiting, all workers
   * together stay within the slots even while starting, and no scheduler call fails.
   */
  lemma {:induction false} SlotsAreRespected(cfg: Config, run: seq<Action>)
    requires cfg.numSlot >= 1 && After(cfg, run).Some?
    ensures var s := After(cfg, run).value;
      && (forall id :: id in s.pool.active ==> id !in s.pool.cached) && NoDuplicates(s.pool.cached)
      && |s.pool.active| + |s.pool.waiting| <= 1
      && |s.pool.active| + |s.pool.cached| + |Starting(s)| <= cfg.numSlot
      && !s.failed
  {
    hide After;
    var g := Reached(cfg, run);
    var s := After(cfg, run).value;
    OnlyOneStarts(cfg, s, g);
    SubsetOfOne(Starting(s), if g.Fetching? then {g.id} else {});
    hide LinksOk, ControlOk, HistoryOk, Starting;
  }

  /** With two slots or more, the coordinator process exits only after the lifecycle has ended. */
  lemma {:induction false} ExitsOnlyAtTheEnd(cfg: Config, run: seq<Action>)
    requires cfg.numSlot >= 2 && After(cfg, run).Some? && After(cfg, run).value.exited
    ensures After(cfg, run).value.ended && After(cfg, run).value.handlers == {}
  {
    hide After, PoolOk, LinksOk, ControlOk, HistoryOk;
    var _ := Reached(cfg, run);
  }

  /**
   * Components return in the order they were submitted, each only after its own `done` was handled, and that only after
   * the refreshed manifest that follows the component was applied.
   */
  lemma {:induction false} ReturnsAfterDone(cfg: Config, run: seq<Action>)
    requires cfg.numSlot >= 1 && After(cfg, run).Some?
    ensures var s := After(cfg, run).value;
      s.returned <= s.done <= s.refreshed <= s.submitted && |s.submitted| <= |s.returned| + 1
  {
    hide After, PoolOk, LinksOk, ControlOk;
    var _ := Reached(cfg, run);
  }

  /** A refreshed manifest brings the new packages, under the name and version of the component just executed. */
  lemma {:induction false} RefreshedManifest(cfg: Config, run: seq<Action>, id: Id)
    requires cfg.numSlot >= 1 && After(cfg, run).Some? && Enabled(After(cfg, run).value, Handle(id))
    requires var m := After(cfg, run).value.links[id].up[0]; m.ResponseManifest? && m.after.Some?
    ensures var s := After(cfg, run).value;
      var t := Step(cfg, s, Handle(id));
      && (s.manager.Posted? || s.manager.Promised?)
      && id in t.pool.manifests
      && t.pool.manifests[id].packages == s.links[id].up[0].manifest.packages
      && s.manager.c.id == s.links[id].up[0].after.value
      && Named(t.pool.manifests[id], s.manager.c)
  {
    hide After, LinksOk, LinkOk, HistoryOk;
    var s := After(cfg, run).value;
    var g := Reached(cfg, run);
    Sender(cfg, s, g, id);
  }
}
