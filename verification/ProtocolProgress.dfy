/** When `OnNewComponent` returns: unless a handler unlocks the lifecycle mutex before the strand has locked it. */
module ProtocolProgress {
  import opened Sequences
  import opened Wrappers
  import opened WorkerPool
  import opened Protocol
  import opened ProtocolSafety

  /** The manager waits for a mutex that no one will unlock. */
  predicate Stuck(s: State)
  {
    s.manager.Promised? && s.strand.Empty? && s.locked && s.lost && s.unlocks == 0
  }

  function StageRank(s: State, g: Stage): nat
  {
    match g
    case Quiet => if s.manager.Idle? then 0 else 20
    case Fetching(_, k, _) => 6 + k
    case Running(_, k, _) => 2 + k
    case Finished(_) => 1
  }

  /** How many steps are left until the outstanding component returns. */
  function Rank(s: State, g: Stage): nat
  {
    StageRank(s, g) + s.unlocks
    + (match s.strand case Queued(_) => 2 case Locking(_) => 1 case Empty => 0)
    + (match s.manager case Posted(_) => 3 case Promised(_) => 2 case Holding(_) => 1 case Idle => 0)
  }

  /** A step towards the return of the outstanding component; `n` and `m` are what the environment chooses. */
  function Helpful(s: State, g: Stage, n: Id, m: Manifest): Action
  {
    if s.strand.Locking? then StrandLock
    else if s.unlocks > 0 then HandlerUnlock
    else
      match g
      case Quiet => RunDispatch(n)
      case Fetching(id, k, _) => if k == 4 || k == 1 then Handle(id) else if k == 3 then Receive(id) else Work(id, m)
      case Running(id, k, _) => if k == 4 then Receive(id) else if k == 3 then Work(id, m) else Handle(id)
      case Finished(_) => if s.manager.Promised? then ManagerLock else ManagerUnlock
  }

  lemma {:induction false} HelpfulIsEnabled(cfg: Config, s: State, g: Stage, n: Id, m: Manifest)
    requires Inv(cfg, s, g) && !s.exited && !s.manager.Idle? && n !in s.links && !Stuck(s)
    ensures Enabled(s, Helpful(s, g, n, m))
  {
    if Busy(g) {
      LinkOfId(cfg, s, g, g.id);
    }
  }

  lemma {:induction false} DispatchRank(cfg: Config, s: State, g: Stage, n: Id)
    requires cfg.numSlot >= 1 && Inv(cfg, s, g) && Enabled(s, RunDispatch(n))
    ensures Rank(Step(cfg, s, RunDispatch(n)), Next(cfg, s, RunDispatch(n), g)) < Rank(s, g)
  {
    hide LinksOk, PoolOk, HistoryOk, FirstCompatible, ToEvict;
  }

  lemma {:induction false} HandleRank(cfg: Config, s: State, g: Stage, id: Id, n: Id, m: Manifest)
    requires Inv(cfg, s, g) && Enabled(s, Handle(id))
    ensures Rank(Step(cfg, s, Handle(id)), Next(cfg, s, Handle(id), g)) <= Rank(s, g)
    ensures Handle(id) == Helpful(s, g, n, m) ==>
            Rank(Step(cfg, s, Handle(id)), Next(cfg, s, Handle(id), g)) < Rank(s, g)
  {
    hide LinksOk, LinkOk, PoolOk, HistoryOk, WorkerReady;
    Sender(cfg, s, g, id);
  }

  lemma {:induction false} LinkRank(cfg: Config, s: State, g: Stage, a: Action, id: Id, n: Id, m: Manifest)
    requires Inv(cfg, s, g) && Enabled(s, a) && (a == Receive(id) || (a.Work? && a.id == id))
    ensures Rank(Step(cfg, s, a), Next(cfg, s, a, g)) <= Rank(s, g)
    ensures a == Helpful(s, g, n, m) ==> Rank(Step(cfg, s, a), Next(cfg, s, a, g)) < Rank(s, g)
  {
    hide LinksOk, PoolOk, HistoryOk;
    LinkOfId(cfg, s, g, id);
    hide LinkOk;
  }

  lemma {:induction false} LocalRank(cfg: Config, s: State, g: Stage, a: Action, n: Id, m: Manifest)
    requires Inv(cfg, s, g) && Enabled(s, a)
    requires a.StrandLock? || a.ManagerLock? || a.ManagerUnlock? || a.HandlerUnlock? || a.EndLifecycle?
    ensures Rank(Step(cfg, s, a), Next(cfg, s, a, g)) <= Rank(s, g)
    ensures a == Helpful(s, g, n, m) && !s.manager.Idle? ==> Rank(Step(cfg, s, a), Next(cfg, s, a, g)) < Rank(s, g)
  {
    hide LinksOk, PoolOk, HistoryOk;
  }

  /** Every step but a submission keeps or lowers the rank, and a helpful one lowers it. */
  lemma {:induction false} RankFalls(cfg: Config, s: State, g: Stage, a: Action, n: Id, m: Manifest)
    requires cfg.numSlot >= 1 && Inv(cfg, s, g) && Enabled(s, a) && !a.Submit?
    ensures Rank(Step(cfg, s, a), Next(cfg, s, a, g)) <= Rank(s, g)
    ensures a == Helpful(s, g, n, m) && !s.manager.Idle? ==> Rank(Step(cfg, s, a), Next(cfg, s, a, g)) < Rank(s, g)
  {
    hide Inv, Step, Enabled, Next, Helpful, Rank;
    match a
    case RunDispatch(k) => DispatchRank(cfg, s, g, k);
    case Handle(id) => HandleRank(cfg, s, g, id, n, m);
    case Receive(id) => LinkRank(cfg, s, g, a, id, n, m);
    case Work(id, _) => LinkRank(cfg, s, g, a, id, n, m);
    case _ => LocalRank(cfg, s, g, a, n, m);
  }

  lemma {:induction false} HelpfulIsAllowed(threads: nat, s: State, g: Stage, n: Id, m: Manifest)
    requires threads >= 1
    ensures !Helpful(s, g, n, m).Submit? && Allowed(threads, s, Helpful(s, g, n, m))
  {
  }

  lemma {:induction false} NotExited(cfg: Config, s: State, g: Stage)
    requires Inv(cfg, s, g) && cfg.numSlot >= 2 && !s.manager.Idle?
    ensures !s.exited
  {
    hide LinksOk, PoolOk, HistoryOk;
  }

  /**
   * In every reachable state with a component outstanding, either the manager is stuck, or a step is enabled that
   * brings its return closer and that any number of threads can perform; no other step puts it off. With a single slot
   * this is so as long as the coordinator process has not exited; with more it does not exit before the lifecycle has
   * ended.
   */
  lemma {:induction false} ReturnOrStuck(cfg: Config, threads: nat, run: seq<Action>, n: Id, m: Manifest)
    returns (g: Stage)
    requires cfg.numSlot >= 1 && threads >= 1 && After(cfg, run).Some?
    requires cfg.numSlot >= 2 || !After(cfg, run).value.exited
    requires !After(cfg, run).value.manager.Idle? && n !in After(cfg, run).value.links
    ensures var s := After(cfg, run).value;
      && Inv(cfg, s, g)
      && (Stuck(s)
          || var a := Helpful(s, g, n, m);
             && Enabled(s, a) && Allowed(threads, s, a)
             && Rank(Step(cfg, s, a), Next(cfg, s, a, g)) < Rank(s, g))
      && forall a | Enabled(s, a) && !a.Submit? :: Rank(Step(cfg, s, a), Next(cfg, s, a, g)) <= Rank(s, g)
  {
    hide After, Inv, Step, Next, Helpful, Rank, Enabled, Allowed, Stuck;
    g := Reached(cfg, run);
    var s := After(cfg, run).value;
    if cfg.numSlot >= 2 {
      NotExited(cfg, s, g);
    }
    if !Stuck(s) {
      HelpfulIsEnabled(cfg, s, g, n, m);
      HelpfulIsAllowed(threads, s, g, n, m);
      RankFalls(cfg, s, g, Helpful(s, g, n, m), n, m);
    }
    forall a | Enabled(s, a) && !a.Submit?
      ensures Rank(Step(cfg, s, a), Next(cfg, s, a, g)) <= Rank(s, g)
    {
      RankFalls(cfg, s, g, a, n, m);
    }
  }

  // ---------- Being stuck ----------

  lemma {:induction false} StuckNext(cfg: Config, s: State, g: Stage, a: Action)
    requires Inv(cfg, s, g) && Stuck(s) && Enabled(s, a)
    ensures Stuck(Step(cfg, s, a)) && Step(cfg, s, a).returned == s.returned
  {
    assert g.Finished?;
    if a.Handle? {
      Sender(cfg, s, g, a.id);
    }
    hide LinksOk, LinkOk, PoolOk;
  }

  /** Once stuck, always stuck: however the run goes on, nothing ever returns again. */
  lemma {:induction false} StuckForever(cfg: Config, run: seq<Action>, more: seq<Action>)
    requires cfg.numSlot >= 1 && After(cfg, run).Some? && Stuck(After(cfg, run).value)
    requires After(cfg, run + more).Some?
    ensures var s, t := After(cfg, run).value, After(cfg, run + more).value;
      Stuck(t) && t.returned == s.returned
  {
    hide Stuck, Step, Enabled;
    if more == [] {
      assert run + more == run;
    } else {
      var before, a := more[..|more| - 1], more[|more| - 1];
      assert (run + more)[..|run + more| - 1] == run + before && (run + more)[|run + more| - 1] == a;
      StuckForever(cfg, run, before);
      var g := Reached(cfg, run + before);
      hide After;
      StuckNext(cfg, After(cfg, run + before).value, g, a);
    }
  }

  /** A lost unlock leads to being stuck, and nothing else does. */
  lemma {:induction false} StuckExactlyWhenLost(cfg: Config, run: seq<Action>)
    requires cfg.numSlot >= 1 && After(cfg, run).Some?
    ensures var s := After(cfg, run).value;
      && (Stuck(s) ==> s.lost)
      && (s.lost && !s.exited ==> Stuck(s) || (Enabled(s, StrandLock) && Stuck(Step(cfg, s, StrandLock))))
  {
    hide After, LinksOk, PoolOk, HistoryOk;
    var _ := Reached(cfg, run);
  }

  /** The unlock is lost exactly if the handler of `done` gets there before the strand has locked the mutex. */
  lemma {:induction false} LostExactlyWhenEarly(cfg: Config, run: seq<Action>)
    requires cfg.numSlot >= 1 && After(cfg, run).Some? && Enabled(After(cfg, run).value, HandlerUnlock)
    ensures var s := After(cfg, run).value;
      Step(cfg, s, HandlerUnlock).lost <==> s.strand.Locking?
  {
    hide After, LinksOk, PoolOk, HistoryOk;
    var _ := Reached(cfg, run);
  }

  lemma {:induction false} EngagedNext(cfg: Config, s: State, g: Stage, a: Action)
    requires Inv(cfg, s, g) && Enabled(s, a) && Allowed(1, s, a) && Engaged(s) <= 1
    ensures Engaged(Step(cfg, s, a)) <= 1
    ensures !a.HandlerUnlock? ==> Step(cfg, s, a).lost == s.lost
  {
    hide LinksOk, LinkOk, PoolOk, HistoryOk, FirstCompatible, ToEvict, WorkerReady;
    if a.Handle? {
      Sender(cfg, s, g, a.id);
    }
  }

  /** A single thread is never engaged twice, so it cannot lose an unlock. */
  lemma {:induction false} OneThreadLosesNothing(cfg: Config, run: seq<Action>)
    requires cfg.numSlot >= 1 && AfterOn(cfg, 1, run).Some?
    ensures !AfterOn(cfg, 1, run).value.lost && Engaged(AfterOn(cfg, 1, run).value) <= 1
  {
    if run == [] {
    } else {
      var before, a := run[..|run| - 1], run[|run| - 1];
      OneThreadLosesNothing(cfg, before);
      AfterOnThreads(cfg, 1, before);
      var s := AfterOn(cfg, 1, before).value;
      if a.HandlerUnlock? {
        LostExactlyWhenEarly(cfg, before);
      }
      hide After, AfterOn, Inv;
      var g := Reached(cfg, before);
      EngagedNext(cfg, s, g, a);
    }
  }
}
