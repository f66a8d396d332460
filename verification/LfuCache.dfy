/** The least-frequently-used baseline: three parallel lists, in order of insertion. */
module LfuCache {
  import opened Sequences
  import opened Workers

  datatype Lfu = Lfu(workers: seq<Worker>, frequency: seq<nat>, time: seq<nat>)

  predicate Parallel(s: Lfu)
  {
    && |s.workers| == |s.frequency| == |s.time|
    && forall i :: 0 <= i < |s.workers| ==> 1 <= s.frequency[i] <= s.time[i]
  }

  function Ratio(s: Lfu, i: nat): real
    requires Parallel(s) && i < |s.workers|
  {
    s.frequency[i] as real / s.time[i] as real
  }

  function Ticks(time: seq<nat>): (r: seq<nat>)
    ensures |r| == |time| && forall i :: 0 <= i < |r| ==> r[i] == time[i] + 1
  {
    seq(|time|, i requires 0 <= i < |time| => time[i] + 1)
  }

  function Ticked(s: Lfu): Lfu
  {
    s.(time := Ticks(s.time))
  }

  function Position(ws: seq<Worker>, w: Worker): (i: nat)
    requires w in ws
    ensures i < |ws| && ws[i] == w && w !in ws[..i]
  {
    if ws[0] == w then 0 else
    assert ws[..1 + Position(ws[1..], w)] == [ws[0]] + ws[1..][..Position(ws[1..], w)];
    1 + Position(ws[1..], w)
  }

  lemma {:induction false} SamePosition(ws: seq<Worker>, i: nat)
    requires i < |ws| && ws[i] !in ws[..i]
    ensures Position(ws, ws[i]) == i
  {
    if i > 0 {
      assert ws[0] in ws[..i];
      assert ws[..i] == [ws[0]] + ws[1..][..i - 1];
      SamePosition(ws[1..], i - 1);
    }
  }

  function Hit(s: Lfu, i: nat): Lfu
    requires i < |s.frequency|
  {
    s.(frequency := s.frequency[i := s.frequency[i] + 1])
  }

  function Evicted(s: Lfu, i: nat): Lfu
    requires Parallel(s) && i < |s.workers|
  {
    Lfu(s.workers[..i] + s.workers[i + 1..], s.frequency[..i] + s.frequency[i + 1..], s.time[..i] + s.time[i + 1..])
  }

  function Inserted(s: Lfu, w: Worker): Lfu
  {
    Lfu(s.workers + [w], s.frequency + [1], s.time + [1])
  }

  /** Index `e` has the least frequency per time, and of those the latest insertion. */
  predicate LastMinimum(s: Lfu, e: nat)
    requires Parallel(s)
  {
    && e < |s.workers|
    && (forall j :: 0 <= j < |s.workers| ==> Ratio(s, e) <= Ratio(s, j))
    && forall j :: e < j < |s.workers| ==> Ratio(s, e) < Ratio(s, j)
  }

  /** How a request may change the lists; the evicted index is determined by `LastMinimum`. */
  ghost predicate LfuStep(size: nat, s: Lfu, w: Worker, t: Lfu)
    requires Parallel(s)
  {
    var u := Ticked(s);
    if w in s.workers then t == Hit(u, Position(s.workers, w))
    else if |s.workers| <= size then t == Inserted(u, w)
    else exists e: nat :: e < |u.workers| && LastMinimum(u, e) && t == Inserted(Evicted(u, e), w)
  }

  lemma {:induction false} StepIsDetermined(size: nat, s: Lfu, w: Worker, t: Lfu, t': Lfu)
    requires Parallel(s) && LfuStep(size, s, w, t) && LfuStep(size, s, w, t')
    ensures t == t'
  {
    hide Ratio, Evicted;
    if w !in s.workers && |s.workers| > size {
      var u := Ticked(s);
      var e: nat :| e < |u.workers| && LastMinimum(u, e) && t == Inserted(Evicted(u, e), w);
      var e': nat :| e' < |u.workers| && LastMinimum(u, e') && t' == Inserted(Evicted(u, e'), w);
      assert Ratio(u, e) <= Ratio(u, e') <= Ratio(u, e);
    }
  }

  lemma {:induction false} CrossTerms(x: real, y: real, t: real, u: real)
    requires t > 0.0 && u > 0.0
    ensures x <= y <==> x * t * u <= y * u * t
  {
    assert t * u > 0.0;
    assert y * u * t - x * t * u == (y - x) * (t * u);
  }

  lemma {:induction false} CrossRatio(f: nat, t: nat, g: nat, u: nat)
    requires t > 0 && u > 0
    ensures f as real / t as real <= g as real / u as real <==> f * u <= g * t
  {
    var x, y := f as real / t as real, g as real / u as real;
    assert x * t as real == f as real && y * u as real == g as real;
    CrossTerms(x, y, t as real, u as real);
    assert (f * u) as real == x * t as real * u as real;
    assert (g * t) as real == y * u as real * t as real;
  }

  lemma {:induction false} RatiosCross(s: Lfu, i: nat, j: nat)
    requires Parallel(s) && i < |s.workers| && j < |s.workers|
    ensures Ratio(s, i) <= Ratio(s, j) <==> s.frequency[i] * s.time[j] <= s.frequency[j] * s.time[i]
  {
    CrossRatio(s.frequency[i], s.time[i], s.frequency[j], s.time[j]);
  }

  lemma {:induction false} LastMinimumCrossed(s: Lfu, e: nat)
    requires Parallel(s) && LastMinimum(s, e)
    ensures forall j :: 0 <= j < |s.workers| ==> s.frequency[e] * s.time[j] <= s.frequency[j] * s.time[e]
    ensures forall j :: e < j < |s.workers| ==> s.frequency[e] * s.time[j] < s.frequency[j] * s.time[e]
  {
    hide Ratio;
    forall j | 0 <= j < |s.workers|
      ensures s.frequency[e] * s.time[j] <= s.frequency[j] * s.time[e]
      ensures e < j ==> s.frequency[e] * s.time[j] < s.frequency[j] * s.time[e]
    {
      RatiosCross(s, e, j);
      RatiosCross(s, j, e);
    }
  }

  /** A request for a worker that is there: all times go up, and it counts once more. */
  lemma {:induction false} HitSpelledOut(size: nat, s: Lfu, i: nat, t: Lfu)
    requires Parallel(s) && i < |s.workers| && s.workers[i] !in s.workers[..i] && LfuStep(size, s, s.workers[i], t)
    ensures t.workers == s.workers && |t.frequency| == |t.time| == |s.workers|
    ensures forall j :: 0 <= j < |s.workers| ==>
      t.frequency[j] == s.frequency[j] + (if j == i then 1 else 0) && t.time[j] == s.time[j] + 1
  {
    SamePosition(s.workers, i);
  }

  /** A request for another, with room for it: it comes last. */
  lemma {:induction false} RoomSpelledOut(size: nat, s: Lfu, w: Worker, t: Lfu)
    requires Parallel(s) && w !in s.workers && |s.workers| <= size && LfuStep(size, s, w, t)
    ensures t.workers == s.workers + [w] && t.frequency == s.frequency + [1] && |t.time| == |s.time| + 1
    ensures t.time[|s.time|] == 1 && forall j :: 0 <= j < |s.time| ==> t.time[j] == s.time[j] + 1
  {
  }

  lemma {:induction false} EvictedLists(s: Lfu, e: nat)
    requires Parallel(s) && e < |s.workers|
    ensures Evicted(s, e).workers == s.workers[..e] + s.workers[e + 1..]
    ensures Evicted(s, e).frequency == s.frequency[..e] + s.frequency[e + 1..]
  {
  }

  lemma {:induction false} EvictedEntries(s: Lfu, e: nat)
    requires Parallel(s) && e < |s.workers|
    ensures |Evicted(s, e).time| == |s.workers| - 1
    ensures forall j :: 0 <= j < |s.workers| - 1 ==> Evicted(s, e).time[j] == s.time[if j < e then j else j + 1]
  {
  }

  /**
   * A request for another, without room: it comes last, for one of the least frequency per time, and of those the one
   * inserted last.
   */
  lemma {:induction false} EvictionSpelledOut(size: nat, s: Lfu, w: Worker, t: Lfu) returns (e: nat)
    requires Parallel(s) && w !in s.workers && |s.workers| > size && LfuStep(size, s, w, t)
    ensures e < |s.workers| && t.workers == s.workers[..e] + s.workers[e + 1..] + [w]
    ensures t.frequency == s.frequency[..e] + s.frequency[e + 1..] + [1] && |t.time| == |s.workers|
    ensures t.time[|s.workers| - 1] == 1
    ensures forall j :: 0 <= j < |s.workers| - 1 ==> t.time[j] == s.time[if j < e then j else j + 1] + 1
    ensures forall j :: 0 <= j < |s.workers| ==>
      s.frequency[e] * (s.time[j] + 1) <= s.frequency[j] * (s.time[e] + 1)
    ensures forall j :: e < j < |s.workers| ==>
      s.frequency[e] * (s.time[j] + 1) < s.frequency[j] * (s.time[e] + 1)
  {
    hide Ratio, LastMinimum;
    var u := Ticked(s);
    e :| e < |u.workers| && LastMinimum(u, e) && t == Inserted(Evicted(u, e), w);
    LastMinimumCrossed(u, e);
    hide Evicted;
    EvictedLists(u, e);
    EvictedEntries(u, e);
  }

  // ---------- What the lists record ----------

  function Count(w: Worker, trace: seq<Worker>): (n: nat)
    ensures n <= |trace|
  {
    if trace == [] then 0 else Count(w, trace[..|trace| - 1]) + if trace[|trace| - 1] == w then 1 else 0
  }

  lemma {:induction false} CountIs(w: Worker, trace: seq<Worker>)
    ensures Count(w, trace) == multiset(trace)[w]
  {
    if trace == [] {
    } else {
      assert trace == trace[..|trace| - 1] + [trace[|trace| - 1]];
      CountIs(w, trace[..|trace| - 1]);
    }
  }

  predicate Recorded(w: Worker, frequency: nat, time: nat, trace: seq<Worker>)
  {
    && 1 <= frequency <= time <= |trace|
    && trace[|trace| - time] == w
    && frequency == Count(w, trace[|trace| - time..])
  }

  /**
   * Worker `i` was last inserted `time[i]` requests ago, and `frequency[i]` of the requests since then were for it.
   * Older entries come first.
   */
  predicate Accounts(s: Lfu, trace: seq<Worker>)
  {
    && Parallel(s) && NoDuplicates(s.workers)
    && (forall i :: 0 <= i < |s.workers| ==> Recorded(s.workers[i], s.frequency[i], s.time[i], trace))
    && forall i, j :: 0 <= i < j < |s.workers| ==> s.time[i] > s.time[j]
  }

  lemma {:induction false} RecordedLater(w: Worker, frequency: nat, time: nat, trace: seq<Worker>, v: Worker)
    requires Recorded(w, frequency, time, trace)
    ensures Recorded(w, frequency + if v == w then 1 else 0, time + 1, trace + [v])
  {
    var now := (trace + [v])[|trace| - time..];
    assert now[..|now| - 1] == trace[|trace| - time..];
  }

  lemma {:induction false} RecordedFirst(trace: seq<Worker>, v: Worker)
    ensures Recorded(v, 1, 1, trace + [v])
  {
    var now := (trace + [v])[|trace|..];
    assert now[..|now| - 1] == [];
  }

  lemma {:induction false} HitKeepsAccounts(s: Lfu, trace: seq<Worker>, i: nat)
    requires Accounts(s, trace) && i < |s.workers|
    ensures Accounts(Hit(Ticked(s), i), trace + [s.workers[i]])
  {
    hide Recorded;
    var w, t := s.workers[i], Hit(Ticked(s), i);
    forall j | 0 <= j < |s.workers|
      ensures Recorded(t.workers[j], t.frequency[j], t.time[j], trace + [w])
    {
      RecordedLater(s.workers[j], s.frequency[j], s.time[j], trace, w);
    }
  }

  lemma {:induction false} MissKeepsAccounts(s: Lfu, trace: seq<Worker>, w: Worker)
    requires Accounts(s, trace) && w !in s.workers
    ensures Accounts(Inserted(Ticked(s), w), trace + [w])
  {
    hide Recorded;
    var t := Inserted(Ticked(s), w);
    RecordedFirst(trace, w);
    forall j | 0 <= j < |s.workers|
      ensures Recorded(t.workers[j], t.frequency[j], t.time[j], trace + [w])
    {
      RecordedLater(s.workers[j], s.frequency[j], s.time[j], trace, w);
    }
  }

  function Shifted(j: nat, e: nat): nat
  {
    if j < e then j else j + 1
  }

  lemma {:induction false} EvictedEntry(s: Lfu, e: nat, j: nat)
    requires Parallel(s) && e < |s.workers| && j < |s.workers| - 1
    ensures var t := Evicted(s, e);
      && |t.workers| == |t.frequency| == |t.time| == |s.workers| - 1
      && t.workers[j] == s.workers[Shifted(j, e)]
      && t.frequency[j] == s.frequency[Shifted(j, e)] && t.time[j] == s.time[Shifted(j, e)]
  {
  }

  lemma {:induction false} RemovalKeepsShape(s: Lfu, e: nat)
    requires Parallel(s) && e < |s.workers|
    ensures Parallel(Evicted(s, e))
    ensures forall x :: x in Evicted(s, e).workers ==> x in s.workers
  {
    var t := Evicted(s, e);
    forall j: nat | j < |t.workers|
      ensures 1 <= t.frequency[j] <= t.time[j]
    {
      EvictedEntry(s, e, j);
    }
  }

  lemma {:induction false} RemovalKeepsAccounts(s: Lfu, trace: seq<Worker>, e: nat)
    requires Accounts(s, trace) && e < |s.workers|
    ensures Accounts(Evicted(s, e), trace)
    ensures forall x :: x in Evicted(s, e).workers ==> x in s.workers
  {
    hide Recorded;
    var t := Evicted(s, e);
    forall j: nat | j < |t.workers|
      ensures 1 <= t.frequency[j] <= t.time[j] && Recorded(t.workers[j], t.frequency[j], t.time[j], trace)
    {
      var i := Shifted(j, e);
      EvictedEntry(s, e, j);
      assert 1 <= s.frequency[i] <= s.time[i] && Recorded(s.workers[i], s.frequency[i], s.time[i], trace);
    }
    RemovalKeepsShape(s, e);
  }

  lemma {:induction false} AccountsParallel(s: Lfu, trace: seq<Worker>)
    requires Accounts(s, trace)
    ensures Parallel(s)
  {
  }

  lemma {:induction false} EvictedTicked(s: Lfu, e: nat)
    requires Parallel(s) && e < |s.workers|
    ensures Evicted(Ticked(s), e) == Ticked(Evicted(s, e))
  {
    assert Evicted(Ticked(s), e).time == Ticked(Evicted(s, e)).time;
  }

  /** Every request keeps the account, and at most `size + 1` workers. */
  lemma {:induction false} StepKeepsAccounts(size: nat, s: Lfu, trace: seq<Worker>, w: Worker, t: Lfu)
    requires Accounts(s, trace) && |s.workers| <= size + 1 && LfuStep(size, s, w, t)
    ensures Accounts(t, trace + [w]) && |t.workers| <= size + 1
  {
    hide Accounts, LastMinimum, Count;
    assert Parallel(s) by { AccountsParallel(s, trace); }
    if w in s.workers {
      HitKeepsAccounts(s, trace, Position(s.workers, w));
    } else if |s.workers| <= size {
      MissKeepsAccounts(s, trace, w);
    } else {
      var e: nat :| e < |s.workers| && LastMinimum(Ticked(s), e) && t == Inserted(Evicted(Ticked(s), e), w);
      RemovalKeepsAccounts(s, trace, e);
      MissKeepsAccounts(Evicted(s, e), trace, w);
      EvictedTicked(s, e);
    }
  }

  // ---------- The cache ----------

  lemma {:induction false} Product(x: real, t: real)
    requires t > 0.0
    ensures x <= 0.0 ==> x * t <= 0.0
    ensures x > 1.0 ==> x * t > t
  {
    if x > 1.0 {
      assert (x - 1.0) * t > 0.0;
    }
  }

  lemma {:induction false} QuotientAtMostOne(f: real, t: real)
    requires 0.0 < f <= t
    ensures 0.0 < f / t <= 1.0
  {
    assert (f / t) * t == f;
    Product(f / t, t);
  }

  lemma {:induction false} RatioAtMostOne(s: Lfu, i: nat)
    requires Parallel(s) && i < |s.workers|
    ensures Ratio(s, i) == s.frequency[i] as real / s.time[i] as real
    ensures 0.0 < Ratio(s, i) <= 1.0
  {
    QuotientAtMostOne(s.frequency[i] as real, s.time[i] as real);
  }

  class LFUCache {
    const workerSetSize: nat
    var workerSet: seq<Worker>
    var frequencyTable: seq<nat>
    var time: seq<nat>
    var numColdStart: nat
    /** Every request so far. */
    ghost var trace: seq<Worker>

    function Lists(): Lfu
      reads this
    {
      Lfu(workerSet, frequencyTable, time)
    }

    ghost predicate Valid()
      reads this
    {
      Accounts(Lists(), trace) && |workerSet| <= workerSetSize + 1
    }

    constructor (workerSetSize: nat)
      ensures Valid() && this.workerSetSize == workerSetSize && trace == [] && numColdStart == 0
    {
      this.workerSetSize := workerSetSize;
      workerSet, frequencyTable, time, numColdStart, trace := [], [], [], 0, [];
    }

    method Get(w: Worker) returns (hit: bool)
      requires Valid()
      modifies this
      ensures Valid() && trace == old(trace) + [w]
      ensures LfuStep(workerSetSize, old(Lists()), w, Lists())
      ensures hit == (w in old(workerSet)) && numColdStart == old(numColdStart) + if hit then 0 else 1
    {
      hide Accounts, Count, LastMinimum;
      ghost var before := Lists();
      AccountsParallel(before, trace);
      trace := trace + [w];
      time := Ticks(time);
      for i := 0 to |workerSet|
        invariant w !in workerSet[..i] && Lists() == Ticked(before) && numColdStart == old(numColdStart)
        invariant trace == old(trace) + [w]
      {
        if workerSet[i] == w {
          assert Position(workerSet, w) == i;
          frequencyTable := frequencyTable[i := frequencyTable[i] + 1];
          StepKeepsAccounts(workerSetSize, before, old(trace), w, Lists());
          return true;
        }
      }
      numColdStart := numColdStart + 1;
      if |workerSet| > workerSetSize {
        var iMin := LeastFrequent();
        workerSet := workerSet[..iMin] + workerSet[iMin + 1..];
        frequencyTable := frequencyTable[..iMin] + frequencyTable[iMin + 1..];
        time := time[..iMin] + time[iMin + 1..];
      }
      workerSet := workerSet + [w];
      frequencyTable := frequencyTable + [1];
      time := time + [1];
      StepKeepsAccounts(workerSetSize, before, old(trace), w, Lists());
      return false;
    }

    /** The scan for the worker to evict; no frequency per time reaches the initial bound. */
    method LeastFrequent() returns (iMin: nat)
      requires Parallel(Lists()) && workerSet != []
      ensures iMin < |workerSet| && LastMinimum(Lists(), iMin)
    {
      hide Ratio;
      ghost var s := Lists();
      var best, freqMin := -1, 9999.0;
      for i := 0 to |frequencyTable|
        invariant -1 <= best < i && (i > 0 ==> best >= 0)
        invariant best == -1 ==> freqMin == 9999.0
        invariant best >= 0 ==>
          && freqMin == Ratio(s, best)
          && (forall j :: 0 <= j < i ==> freqMin <= Ratio(s, j))
          && forall j :: best < j < i ==> freqMin < Ratio(s, j)
      {
        RatioAtMostOne(s, i);
        var freq := frequencyTable[i] as real / time[i] as real;
        if freq <= freqMin {
          best, freqMin := i, freq;
        }
      }
      return best;
    }
  }
}
