/** In every run, the cached workers stand in the order in which they were last done. */
module ProtocolOrder {
  import opened Sequences
  import opened Wrappers
  import opened WorkerPool
  import opened Protocol
  import opened ProtocolSafety

  /** The number of steps after which the last `done` of a worker had been handled, or 0. */
  function LastDone(cfg: Config, run: seq<Action>, id: Id): (n: nat)
    requires After(cfg, run).Some?
    ensures n <= |run|
  {
    if run == [] then 0 else
    var before, a := run[..|run| - 1], run[|run| - 1];
    var s := After(cfg, before).value;
    if a == Handle(id) && s.links[id].up[0].Done? then |run| else LastDone(cfg, before, id)
  }

  /** The handling of a `done`. */
  predicate HandlesDone(s: State, a: Action)
    requires Enabled(s, a)
  {
    a.Handle? && s.links[a.id].up[0].Done?
  }

  /** What a step makes of the cached workers: one is put last when it is done, or one is taken out, or none changes. */
  ghost predicate CachedNext(before: seq<Id>, after: seq<Id>, done: Option<Id>)
  {
    match done
    case Some(id) => id !in before && after == before + [id]
    case None => after == before || exists i :: 0 <= i < |before| && after == before[..i] + before[i + 1..]
  }

  lemma {:induction false} FirstManifestCached(cfg: Config, s: State, g: Stage, id: Id)
    requires Inv(cfg, s, g) && Enabled(s, Handle(id))
    requires s.links[id].up[0].ResponseManifest? && s.links[id].up[0].after == None
    ensures Step(cfg, s, Handle(id)).pool.cached == s.pool.cached
  {
    hide LinksOk, LinkOk, WorkerReady, Step, PoolOk;
    Sender(cfg, s, g, id);
    WaitingTaken(cfg, s.pool, g, s.links[id].up[0].manifest);
    var m := s.links[id].up[0];
    FetchingPool(cfg, s.pool, g);
    FirstManifestStep(cfg, s, id, m, WorkerReady(s.pool.(manifests := s.pool.manifests[id := m.manifest]), id).0, g.c);
  }

  lemma {:induction false} DoneCached(cfg: Config, s: State, g: Stage, id: Id)
    requires Inv(cfg, s, g) && Enabled(s, Handle(id)) && s.links[id].up[0].Done?
    ensures id !in s.pool.cached && Step(cfg, s, Handle(id)).pool.cached == s.pool.cached + [id]
  {
    hide LinksOk, LinkOk, Step, Removed;
    Sender(cfg, s, g, id);
    DoneStep(cfg, s, g);
    PutLast(s.pool.cached, id);
  }

  lemma {:induction false} OthersCached(cfg: Config, s: State, g: Stage, id: Id)
    requires Inv(cfg, s, g) && Enabled(s, Handle(id))
    requires var m := s.links[id].up[0]; m == Ready || m == Bye || (m.ResponseManifest? && m.after != None)
    ensures Step(cfg, s, Handle(id)).pool.cached == s.pool.cached
  {
    hide LinksOk, LinkOk, ControlOk, HistoryOk, WorkerReady;
    Sender(cfg, s, g, id);
  }

  lemma {:induction false} HandledCached(cfg: Config, s: State, g: Stage, id: Id)
    requires Inv(cfg, s, g) && Enabled(s, Handle(id))
    ensures CachedNext(s.pool.cached, Step(cfg, s, Handle(id)).pool.cached,
                       if HandlesDone(s, Handle(id)) then Some(id) else None)
  {
    hide Inv, Step;
    match s.links[id].up[0]
    case ResponseManifest(_, after) =>
      if after == None { FirstManifestCached(cfg, s, g, id); } else { OthersCached(cfg, s, g, id); }
    case Done(_) => DoneCached(cfg, s, g, id);
    case _ => OthersCached(cfg, s, g, id);
  }

  lemma {:induction false} DispatchedCached(cfg: Config, s: State, g: Stage, n: Id)
    requires Inv(cfg, s, g) && Enabled(s, RunDispatch(n))
    ensures CachedNext(s.pool.cached, Step(cfg, s, RunDispatch(n)).pool.cached, None)
  {
    hide LinksOk, LinkOk, ControlOk, HistoryOk, Dispatch;
    var i := CachedAfterDispatch(cfg.compat, cfg.numSlot, s.pool, s.strand.c);
  }

  lemma {:induction false} StepCached(cfg: Config, s: State, g: Stage, a: Action)
    requires Inv(cfg, s, g) && Enabled(s, a)
    ensures CachedNext(s.pool.cached, Step(cfg, s, a).pool.cached, if HandlesDone(s, a) then Some(a.id) else None)
  {
    hide Inv;
    match a
    case Handle(id) => HandledCached(cfg, s, g, id);
    case RunDispatch(n) => DispatchedCached(cfg, s, g, n);
    case _ =>
  }

  /** In order of their last `done`, each of which there has been. */
  ghost predicate InOrder(cfg: Config, run: seq<Action>, cached: seq<Id>)
    requires After(cfg, run).Some?
  {
    && (forall i :: 0 <= i < |cached| ==> LastDone(cfg, run, cached[i]) > 0)
    && forall i, j :: 0 <= i < j < |cached| ==> LastDone(cfg, run, cached[i]) < LastDone(cfg, run, cached[j])
  }

  lemma {:induction false} LastDoneAfter(cfg: Config, run: seq<Action>, id: Id)
    requires run != [] && After(cfg, run).Some?
    ensures var last, a := run[..|run| - 1], run[|run| - 1];
      && After(cfg, last).Some? && Enabled(After(cfg, last).value, a)
      && LastDone(cfg, run, id)
         == if HandlesDone(After(cfg, last).value, a) && a.id == id then |run| else LastDone(cfg, last, id)
  {
  }

  lemma {:induction false} OrderAfter(cfg: Config, run: seq<Action>, before: seq<Id>, after: seq<Id>)
    requires run != [] && After(cfg, run).Some? && After(cfg, run[..|run| - 1]).Some?
    requires Enabled(After(cfg, run[..|run| - 1]).value, run[|run| - 1])
    requires InOrder(cfg, run[..|run| - 1], before)
    requires var s, a := After(cfg, run[..|run| - 1]).value, run[|run| - 1];
      CachedNext(before, after, if HandlesDone(s, a) then Some(a.id) else None)
    ensures InOrder(cfg, run, after)
  {
    hide After, Enabled, LastDone, HandlesDone;
    var last, a := run[..|run| - 1], run[|run| - 1];
    if HandlesDone(After(cfg, last).value, a) {
      forall i | 0 <= i < |after|
        ensures LastDone(cfg, run, after[i]) == if i == |before| then |run| else LastDone(cfg, last, before[i])
      {
        LastDoneAfter(cfg, run, after[i]);
        assert i < |before| ==> after[i] == before[i] && before[i] in before;
      }
    } else {
      forall id
        ensures LastDone(cfg, run, id) == LastDone(cfg, last, id)
      {
        LastDoneAfter(cfg, run, id);
      }
      if after != before {
        var k :| 0 <= k < |before| && after == before[..k] + before[k + 1..];
        assert forall i :: 0 <= i < |after| ==> after[i] == before[if i < k then i else i + 1];
      }
    }
  }

  /** So the worker that is evicted for want of a better one is the one that has been idle longest. */
  lemma {:induction false} CachedByLastDone(cfg: Config, run: seq<Action>)
    requires cfg.numSlot >= 1 && After(cfg, run).Some?
    ensures var cached := After(cfg, run).value.pool.cached;
      && (forall i :: 0 <= i < |cached| ==> LastDone(cfg, run, cached[i]) > 0)
      && forall i, j :: 0 <= i < j < |cached| ==> LastDone(cfg, run, cached[i]) < LastDone(cfg, run, cached[j])
  {
    if run == [] {
    } else {
      hide Inv, Step, Enabled, LastDone;
      var last := run[..|run| - 1];
      var g := Reached(cfg, last);
      CachedByLastDone(cfg, last);
      var s := After(cfg, last).value;
      StepCached(cfg, s, g, run[|run| - 1]);
      OrderAfter(cfg, run, s.pool.cached, After(cfg, run).value.pool.cached);
    }
  }
}
