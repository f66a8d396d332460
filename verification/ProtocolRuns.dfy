/** Two runs that show what the protocol does not promise. */
module ProtocolRuns {
  import opened Sequences
  import opened Wrappers
  import opened WorkerPool
  import opened Protocol
  import opened ProtocolSafety
  import opened ProtocolProgress

  const PACKAGES: Manifest := Manifest("", "", map[])
  const FIRST := Component(1, Manifest("library", "0.0", map[]))
  const SECOND := Component(2, Manifest("model", "0.0", map[]))

  /** No worker is ever compatible with a component. */
  function Strict(numSlot: nat): Config
  {
    Config(numSlot, (_, _) => false)
  }

  /** One more step, on two or more threads. */
  lemma {:induction false} Extend(cfg: Config, threads: nat, run: seq<Action>, s: State, a: Action, t: State)
    requires AfterOn(cfg, threads, run) == Some(s) && Enabled(s, a) && Step(cfg, s, a) == t
    requires threads >= 2 && (a.Handle? || a.RunDispatch? ==> Engaged(s) <= 1)
    ensures AfterOn(cfg, threads, run + [a]) == Some(t)
  {
    assert (run + [a])[..|run + [a]| - 1] == run;
  }

  /** Worker 0 with its queues, while the first component is outstanding. */
  function Outstanding(p: Pool, l: Link, handlers: set<Id>, refreshed: seq<nat>, done: seq<nat>, unlocks: nat): State
  {
    State(p, map[0 := l], handlers, Posted(FIRST), Locking(FIRST), false, unlocks, false, false, false, false,
          [1], refreshed, done, [])
  }

  const WAITING := Pool([], [], [], [FIRST], map[])
  const ARRIVED := Pool([], [], [0], [FIRST], map[])
  const ACTIVE := Pool([0], [], [], [], map[0 := FIRST.manifest])
  const CACHED := Pool([], [0], [], [], map[0 := FIRST.manifest])

  const ALL_DONE := Outstanding(CACHED, Link(true, [], [], []), {0}, [1], [1], 1)

  function ToStart(): seq<Action>
  {
    [Submit(FIRST), RunDispatch(0)]
  }

  lemma {:induction false} Started(cfg: Config, threads: nat)
    requires cfg.numSlot >= 1 && threads >= 2
    ensures AfterOn(cfg, threads, ToStart()) == Some(Outstanding(WAITING, Link(true, [], [], [Ready]), {}, [], [], 0))
  {
    var s0 := INITIAL;
    assert AfterOn(cfg, threads, []) == Some(s0);
    var s1 := s0.(manager := Posted(FIRST), strand := Queued(FIRST), submitted := [1]);
    Extend(cfg, threads, [], s0, Submit(FIRST), s1);
    assert [] + [Submit(FIRST)] == [Submit(FIRST)];
    assert Dispatch(cfg.compat, cfg.numSlot, EMPTY_POOL, FIRST) == Dispatched.Started(None, WAITING);
    var s2 := Outstanding(WAITING, Link(true, [], [], [Ready]), {}, [], [], 0);
    Extend(cfg, threads, [Submit(FIRST)], s1, RunDispatch(0), s2);
    assert [Submit(FIRST)] + [RunDispatch(0)] == ToStart();
  }

  lemma {:induction false} Single<T>(x: T)
    ensures [x][1..] == [] && [] + [x] == [x]
  {
  }

  lemma {:induction false} OneWorker(l: Link, l': Link)
    ensures map[0 := l][0 := l'] == map[0 := l']
  {
  }

  lemma {:induction false} WorkerReceives(cfg: Config, p: Pool, d: Down, l': Link)
    requires l' == Delivered(Link(true, [d], [], []))
    ensures var s := Outstanding(p, Link(true, [d], [], []), {0}, [], [], 0);
      Enabled(s, Receive(0)) && Step(cfg, s, Receive(0)) == Outstanding(p, l', {0}, [], [], 0)
  {
    Single(d);
    OneWorker(Link(true, [d], [], []), l');
  }

  lemma {:induction false} WorkerWorks(cfg: Config, p: Pool, j: Job, l': Link)
    requires l' == Worked(Link(true, [], [j], []), PACKAGES)
    ensures var s := Outstanding(p, Link(true, [], [j], []), {0}, [], [], 0);
      Enabled(s, Work(0, PACKAGES)) && Step(cfg, s, Work(0, PACKAGES)) == Outstanding(p, l', {0}, [], [], 0)
  {
    Single(j);
    OneWorker(Link(true, [], [j], []), l');
  }

  lemma {:induction false} ReadyHandled(cfg: Config)
    ensures var s := Outstanding(WAITING, Link(true, [], [], [Ready]), {}, [], [], 0);
      && Enabled(s, Handle(0))
      && Step(cfg, s, Handle(0)) == Outstanding(ARRIVED, Link(true, [RequestManifest], [], []), {0}, [], [], 0)
  {
    Single(Ready);
    Single(RequestManifest);
    assert [] + [0] == [0 as Id];
    OneWorker(Link(true, [], [], [Ready]), Link(true, [], [], []));
    OneWorker(Link(true, [], [], []), Link(true, [RequestManifest], [], []));
  }

  lemma {:induction false} ManifestTaken()
    ensures WorkerReady(ARRIVED.(manifests := map[0 := PACKAGES]), 0) == (ACTIVE, Some(FIRST))
  {
    assert Put([], 0) == [0] && Removed([0], 0) == [];
    assert [FIRST][1..] == [];
    assert PACKAGES.(name := FIRST.manifest.name, version := FIRST.manifest.version) == FIRST.manifest;
    assert map[0 := PACKAGES][0 := FIRST.manifest] == map[0 := FIRST.manifest];
  }

  lemma {:induction false} ManifestHandled(cfg: Config)
    ensures var s := Outstanding(ARRIVED, Link(true, [], [], [ResponseManifest(PACKAGES, None)]), {0}, [], [], 0);
      && Enabled(s, Handle(0))
      && Step(cfg, s, Handle(0)) == Outstanding(ACTIVE, Link(true, [Execute(FIRST)], [], []), {0}, [], [], 0)
  {
    ManifestTaken();
    hide WorkerReady;
    assert map[][0 := PACKAGES] == map[0 := PACKAGES];
    Single(ResponseManifest(PACKAGES, None));
    Single(Execute(FIRST));
    OneWorker(Link(true, [], [], [ResponseManifest(PACKAGES, None)]), Link(true, [], [], []));
    OneWorker(Link(true, [], [], []), Link(true, [Execute(FIRST)], [], []));
  }

  lemma {:induction false} RefreshHandled(cfg: Config)
    ensures var l := Link(true, [], [], [ResponseManifest(PACKAGES, Some(1)), Done(1)]);
      var s := Outstanding(ACTIVE, l, {0}, [], [], 0);
      && Enabled(s, Handle(0))
      && Step(cfg, s, Handle(0)) == Outstanding(ACTIVE, Link(true, [], [], [Done(1)]), {0}, [1], [], 0)
  {
    assert map[0 := FIRST.manifest][0 := FIRST.manifest] == map[0 := FIRST.manifest];
    assert [] + [1] == [1 as nat];
    assert [ResponseManifest(PACKAGES, Some(1)), Done(1)][1..] == [Done(1)];
    assert PACKAGES.(name := FIRST.manifest.name, version := FIRST.manifest.version) == FIRST.manifest;
    OneWorker(Link(true, [], [], [ResponseManifest(PACKAGES, Some(1)), Done(1)]), Link(true, [], [], [Done(1)]));
  }

  lemma {:induction false} DoneHandled(cfg: Config)
    ensures var s := Outstanding(ACTIVE, Link(true, [], [], [Done(1)]), {0}, [1], [], 0);
      Enabled(s, Handle(0)) && Step(cfg, s, Handle(0)) == ALL_DONE
  {
    assert Put([], 0) == [0] && Removed([0], 0) == [];
    Single(Done(1));
    assert [] + [1] == [1 as nat];
    OneWorker(Link(true, [], [], [Done(1)]), Link(true, [], [], []));
  }

  function ToActive(): seq<Action>
  {
    ToStart() + [Handle(0)] + [Receive(0)] + [Work(0, PACKAGES)] + [Handle(0)]
  }

  lemma {:induction false} Activated(cfg: Config, threads: nat)
    requires cfg.numSlot >= 1 && threads >= 2
    ensures AfterOn(cfg, threads, ToActive())
        == Some(Outstanding(ACTIVE, Link(true, [Execute(FIRST)], [], []), {0}, [], [], 0))
  {
    hide AfterOn, Step, Enabled, ToStart;
    var r := ToStart();
    Started(cfg, threads);
    var s2 := Outstanding(WAITING, Link(true, [], [], [Ready]), {}, [], [], 0);
    var s3 := Outstanding(ARRIVED, Link(true, [RequestManifest], [], []), {0}, [], [], 0);
    ReadyHandled(cfg);
    Extend(cfg, threads, r, s2, Handle(0), s3);
    var s4 := Outstanding(ARRIVED, Link(true, [], [Capture], []), {0}, [], [], 0);
    WorkerReceives(cfg, ARRIVED, RequestManifest, Link(true, [], [Capture], []));
    Extend(cfg, threads, r + [Handle(0)], s3, Receive(0), s4);
    var s5 := Outstanding(ARRIVED, Link(true, [], [], [ResponseManifest(PACKAGES, None)]), {0}, [], [], 0);
    WorkerWorks(cfg, ARRIVED, Capture, Link(true, [], [], [ResponseManifest(PACKAGES, None)]));
    Extend(cfg, threads, r + [Handle(0)] + [Receive(0)], s4, Work(0, PACKAGES), s5);
    var s6 := Outstanding(ACTIVE, Link(true, [Execute(FIRST)], [], []), {0}, [], [], 0);
    ManifestHandled(cfg);
    Extend(cfg, threads, r + [Handle(0)] + [Receive(0)] + [Work(0, PACKAGES)], s5, Handle(0), s6);
  }

  function ToDone(): seq<Action>
  {
    ToActive() + [Receive(0)] + [Work(0, PACKAGES)] + [Handle(0)] + [Handle(0)]
  }

  lemma {:induction false} WasDone(cfg: Config, threads: nat)
    requires cfg.numSlot >= 1 && threads >= 2
    ensures AfterOn(cfg, threads, ToDone()) == Some(ALL_DONE)
  {
    hide AfterOn, Step, Enabled, ToActive;
    var r := ToActive();
    Activated(cfg, threads);
    var m := ResponseManifest(PACKAGES, Some(1));
    var s6 := Outstanding(ACTIVE, Link(true, [Execute(FIRST)], [], []), {0}, [], [], 0);
    var s7 := Outstanding(ACTIVE, Link(true, [], [Run(FIRST)], []), {0}, [], [], 0);
    WorkerReceives(cfg, ACTIVE, Execute(FIRST), Link(true, [], [Run(FIRST)], []));
    Extend(cfg, threads, r, s6, Receive(0), s7);
    var s8 := Outstanding(ACTIVE, Link(true, [], [], [m, Done(1)]), {0}, [], [], 0);
    WorkerWorks(cfg, ACTIVE, Run(FIRST), Link(true, [], [], [m, Done(1)]));
    Extend(cfg, threads, r + [Receive(0)], s7, Work(0, PACKAGES), s8);
    var s9 := Outstanding(ACTIVE, Link(true, [], [], [Done(1)]), {0}, [1], [], 0);
    RefreshHandled(cfg);
    Extend(cfg, threads, r + [Receive(0)] + [Work(0, PACKAGES)], s8, Handle(0), s9);
    DoneHandled(cfg);
    Extend(cfg, threads, r + [Receive(0)] + [Work(0, PACKAGES)] + [Handle(0)], s9, Handle(0), ALL_DONE);
  }

  const LOST := ALL_DONE.(unlocks := 0, lost := true)
  const STUCK := LOST.(locked := true, strand := Empty, manager := Promised(FIRST))

  lemma {:induction false} UnlockedEarly(cfg: Config)
    ensures Enabled(ALL_DONE, HandlerUnlock) && Step(cfg, ALL_DONE, HandlerUnlock) == LOST
    ensures Enabled(LOST, StrandLock) && Step(cfg, LOST, StrandLock) == STUCK
  {
  }

  /** The first component's worker is done before the strand locks: the trial manager waits for ever. */
  lemma {:induction false} LostUnlock(cfg: Config, threads: nat) returns (run: seq<Action>)
    requires cfg.numSlot >= 1 && threads >= 2
    ensures AfterOn(cfg, threads, run).Some? && Stuck(AfterOn(cfg, threads, run).value)
  {
    hide AfterOn, Step, Enabled, ToDone;
    WasDone(cfg, threads);
    UnlockedEarly(cfg);
    Extend(cfg, threads, ToDone(), ALL_DONE, HandlerUnlock, LOST);
    Extend(cfg, threads, ToDone() + [HandlerUnlock], LOST, StrandLock, STUCK);
    run := ToDone() + [HandlerUnlock] + [StrandLock];
  }

  /** The trial manager can get stuck exactly if there is more than one I/O thread. */
  lemma {:induction false} StuckOnlyOnManyThreads(cfg: Config, threads: nat)
    requires cfg.numSlot >= 1 && threads >= 1
    ensures threads == 1 <==>
      forall run :: AfterOn(cfg, threads, run).Some? ==> !Stuck(AfterOn(cfg, threads, run).value)
  {
    hide AfterOn;
    if threads == 1 {
      forall run | AfterOn(cfg, threads, run).Some?
        ensures !Stuck(AfterOn(cfg, threads, run).value)
      {
        OneThreadLosesNothing(cfg, run);
      }
    } else {
      var run := LostUnlock(cfg, threads);
    }
  }

  const LOCKED := ALL_DONE.(locked := true, strand := Empty, manager := Promised(FIRST))
  const UNLOCKED := LOCKED.(locked := false, unlocks := 0)
  const HELD := UNLOCKED.(locked := true, manager := Holding(FIRST))
  const IDLE := ALL_DONE.(manager := Idle, strand := Empty, unlocks := 0, returned := [1])

  lemma {:induction false} UnlockedLate(cfg: Config)
    ensures Enabled(ALL_DONE, StrandLock) && Step(cfg, ALL_DONE, StrandLock) == LOCKED
    ensures Enabled(LOCKED, HandlerUnlock) && Step(cfg, LOCKED, HandlerUnlock) == UNLOCKED
    ensures Enabled(UNLOCKED, ManagerLock) && Step(cfg, UNLOCKED, ManagerLock) == HELD
    ensures Enabled(HELD, ManagerUnlock) && Step(cfg, HELD, ManagerUnlock) == IDLE
  {
    assert [] + [1] == [1 as nat];
  }

  function ToIdle(): seq<Action>
  {
    ToDone() + [StrandLock] + [HandlerUnlock] + [ManagerLock] + [ManagerUnlock]
  }

  lemma {:induction false} Returned(cfg: Config, threads: nat)
    requires cfg.numSlot >= 1 && threads >= 2
    ensures AfterOn(cfg, threads, ToIdle()) == Some(IDLE)
  {
    hide AfterOn, Step, Enabled, ToDone;
    var r := ToDone();
    WasDone(cfg, threads);
    UnlockedLate(cfg);
    Extend(cfg, threads, r, ALL_DONE, StrandLock, LOCKED);
    Extend(cfg, threads, r + [StrandLock], LOCKED, HandlerUnlock, UNLOCKED);
    Extend(cfg, threads, r + [StrandLock] + [HandlerUnlock], UNLOCKED, ManagerLock, HELD);
    Extend(cfg, threads, r + [StrandLock] + [HandlerUnlock] + [ManagerLock], HELD, ManagerUnlock, IDLE);
  }

  /** The second component after the first has returned, with worker 0 evicted and worker 1 starting. */
  function Evicting(l: Link, handlers: set<Id>): State
  {
    IDLE.(manager := Posted(SECOND), strand := Locking(SECOND), submitted := [1, 2],
          pool := CACHED.(cached := [], waiting := [SECOND]), handlers := handlers, exited := handlers == {},
          links := map[0 := l, 1 := Link(true, [], [], [Ready])])
  }

  lemma {:induction false} OnlyWorkerEvicted(s: State)
    requires s == IDLE.(manager := Posted(SECOND), strand := Queued(SECOND), submitted := [1, 2])
    ensures Enabled(s, RunDispatch(1))
        && Step(Strict(1), s, RunDispatch(1)) == Evicting(Link(true, [Exit], [], []), {0})
  {
    assert FirstCompatible(Strict(1).compat, [0], CACHED.manifests, SECOND) == None by {
      assert [0][1..] == [];
    }
    assert FirstNamed([0], CACHED.manifests, "model") == None by {
      assert "library"[0] != "model"[0];
      assert [0][1..] == [];
    }
    assert Removed([0], 0) == [];
    Single(SECOND);
    Single(Exit);
    hide FirstCompatible, FirstNamed, Removed;
    var newcomer := Link(true, [], [], [Ready]);
    assert map[0 := Link(true, [], [], [])][0 := Link(true, [Exit], [], [])][1 := newcomer]
        == map[0 := Link(true, [Exit], [], []), 1 := newcomer];
  }

  lemma {:induction false} ExitReceived(cfg: Config)
    ensures var s := Evicting(Link(true, [Exit], [], []), {0});
      Enabled(s, Receive(0)) && Step(cfg, s, Receive(0)) == Evicting(Link(false, [], [], [Bye]), {0})
  {
    Single(Exit);
    Single(Bye);
    var newcomer := Link(true, [], [], [Ready]);
    assert map[0 := Link(true, [Exit], [], []), 1 := newcomer][0 := Link(false, [], [], [Bye])]
        == map[0 := Link(false, [], [], [Bye]), 1 := newcomer];
  }

  lemma {:induction false} ByeHandled(cfg: Config)
    ensures var s := Evicting(Link(false, [], [], [Bye]), {0});
      Enabled(s, Handle(0)) && Step(cfg, s, Handle(0)) == Evicting(Link(false, [], [], []), {})
  {
    Single(Bye);
    var newcomer := Link(true, [], [], [Ready]);
    assert map[0 := Link(false, [], [], [Bye]), 1 := newcomer][0 := Link(false, [], [], [])]
        == map[0 := Link(false, [], [], []), 1 := newcomer];
    assert {0} - {0} == {};
  }

  lemma {:induction false} SecondSubmitted(cfg: Config)
    ensures Enabled(IDLE, Submit(SECOND))
    ensures Step(cfg, IDLE, Submit(SECOND))
         == IDLE.(manager := Posted(SECOND), strand := Queued(SECOND), submitted := [1, 2])
  {
    assert [1] + [2] == [1, 2];
  }

  /** With a single slot, an eviction can end the coordinator process in the middle of the lifecycle. */
  lemma {:induction false} SingleSlotExits() returns (run: seq<Action>)
    ensures var s := After(Strict(1), run);
      s.Some? && s.value.exited && !s.value.ended && s.value.manager == Posted(SECOND)
  {
    hide AfterOn, Step, Enabled, ToIdle;
    var cfg, threads, r := Strict(1), 2, ToIdle();
    Returned(cfg, threads);
    var t := IDLE.(manager := Posted(SECOND), strand := Queued(SECOND), submitted := [1, 2]);
    SecondSubmitted(cfg);
    Extend(cfg, threads, r, IDLE, Submit(SECOND), t);
    OnlyWorkerEvicted(t);
    var u := Evicting(Link(true, [Exit], [], []), {0});
    Extend(cfg, threads, r + [Submit(SECOND)], t, RunDispatch(1), u);
    ExitReceived(cfg);
    var v := Evicting(Link(false, [], [], [Bye]), {0});
    Extend(cfg, threads, r + [Submit(SECOND)] + [RunDispatch(1)], u, Receive(0), v);
    ByeHandled(cfg);
    var w := Evicting(Link(false, [], [], []), {});
    Extend(cfg, threads, r + [Submit(SECOND)] + [RunDispatch(1)] + [Receive(0)], v, Handle(0), w);
    run := r + [Submit(SECOND)] + [RunDispatch(1)] + [Receive(0)] + [Handle(0)];
    AfterOnThreads(cfg, threads, run);
  }

  /** No run ends the coordinator process within the lifecycle exactly if there is more than one slot. */
  lemma {:induction false} ExitsEarlyOnlyOnOneSlot(numSlot: nat)
    requires numSlot >= 1
    ensures numSlot >= 2 <==>
      forall cfg: Config, run ::
        cfg.numSlot == numSlot && After(cfg, run).Some? && After(cfg, run).value.exited ==> After(cfg, run).value.ended
  {
    hide After;
    if numSlot >= 2 {
      forall cfg: Config, run | cfg.numSlot == numSlot && After(cfg, run).Some? && After(cfg, run).value.exited
        ensures After(cfg, run).value.ended
      {
        ExitsOnlyAtTheEnd(cfg, run);
      }
    } else {
      var run := SingleSlotExits();
      assert Strict(1).numSlot == numSlot;
    }
  }
}
