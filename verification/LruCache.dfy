/** The least-recently-used baseline. */
module LruCache {
  import opened Sequences
  import opened Workers

  /** The worker list after one request; one worker more than `size` fits. */
  function LruStep(size: nat, ws: seq<Worker>, w: Worker): seq<Worker>
  {
    if w in ws then Removed(ws, w) + [w] else (if |ws| > size then ws[1..] else ws) + [w]
  }

  function LruRun(size: nat, trace: seq<Worker>): seq<Worker>
  {
    if trace == [] then [] else LruStep(size, LruRun(size, trace[..|trace| - 1]), trace[|trace| - 1])
  }

  /** How many requests of the trace found no worker. */
  function ColdStarts(size: nat, trace: seq<Worker>): nat
  {
    if trace == [] then 0 else
    var before := trace[..|trace| - 1];
    ColdStarts(size, before) + if trace[|trace| - 1] in LruRun(size, before) then 0 else 1
  }

  class LRUCache {
    const workerSetSize: nat
    var workerSet: seq<Worker>
    var numColdStart: nat
    /** Every request so far. */
    ghost var trace: seq<Worker>

    ghost predicate Valid()
      reads this
    {
      workerSet == LruRun(workerSetSize, trace) && numColdStart == ColdStarts(workerSetSize, trace)
    }

    constructor (workerSetSize: nat)
      ensures Valid() && this.workerSetSize == workerSetSize && trace == []
    {
      this.workerSetSize := workerSetSize;
      workerSet := [];
      numColdStart := 0;
      trace := [];
    }

    method Get(w: Worker) returns (hit: bool)
      requires Valid()
      modifies this
      ensures Valid() && trace == old(trace) + [w] && hit == (w in old(workerSet))
    {
      trace := trace + [w];
      assert trace[..|trace| - 1] == old(trace);
      for i := 0 to |workerSet|
        invariant w !in workerSet[..i] && workerSet == old(workerSet) && numColdStart == old(numColdStart)
        invariant trace == old(trace) + [w]
      {
        if workerSet[i] == w {
          RemovedAt(workerSet, i);
          workerSet := workerSet[..i] + workerSet[i + 1..];
          workerSet := workerSet + [w];
          return true;
        }
      }
      numColdStart := numColdStart + 1;
      if |workerSet| > workerSetSize {
        workerSet := workerSet[1..];
      }
      workerSet := workerSet + [w];
      return false;
    }
  }

  // ---------- Recency ----------

  /** The time of the last request for a worker, or -1. */
  function LastUse(trace: seq<Worker>, w: Worker): (t: int)
    ensures -1 <= t < |trace|
    ensures t >= 0 <==> w in trace
    ensures t >= 0 ==> trace[t] == w && w !in trace[t + 1..]
  {
    if trace == [] then -1
    else if trace[|trace| - 1] == w then |trace| - 1
    else
      assert forall x :: x in trace && x != trace[|trace| - 1] ==> x in trace[..|trace| - 1];
      LastUse(trace[..|trace| - 1], w)
  }

  /** Every worker ever requested, once, the latest last. */
  function Recency(trace: seq<Worker>): seq<Worker>
  {
    if trace == [] then [] else
    var w := trace[|trace| - 1];
    Removed(Recency(trace[..|trace| - 1]), w) + [w]
  }

  lemma {:induction false} RecencyIsDistinct(trace: seq<Worker>)
    ensures NoDuplicates(Recency(trace))
    ensures forall x :: x in Recency(trace) <==> x in trace
  {
    if trace == [] {
    } else {
      var before, w := trace[..|trace| - 1], trace[|trace| - 1];
      assert trace == before + [w];
      RecencyIsDistinct(before);
      RemovedNoDuplicates(Recency(before), w);
    }
  }

  predicate ByLastUse(trace: seq<Worker>, ws: seq<Worker>)
  {
    forall i, j :: 0 <= i < j < |ws| ==> LastUse(trace, ws[i]) < LastUse(trace, ws[j])
  }

  lemma {:induction false} OrderWithoutOne(trace: seq<Worker>, ws: seq<Worker>, i: nat)
    requires ByLastUse(trace, ws) && i < |ws|
    ensures ByLastUse(trace, ws[..i] + ws[i + 1..])
  {
    hide LastUse;
    var r := ws[..i] + ws[i + 1..];
    assert forall x :: 0 <= x < |r| ==> r[x] == ws[if x < i then x else x + 1];
  }

  lemma {:induction false} RemovalKeepsOrder(trace: seq<Worker>, ws: seq<Worker>, w: Worker)
    requires NoDuplicates(ws) && ByLastUse(trace, ws)
    ensures ByLastUse(trace, Removed(ws, w))
  {
    hide ByLastUse;
    if w in ws {
      var i := IndexOf(ws, w);
      RemovedAt(ws, i);
      OrderWithoutOne(trace, ws, i);
    }
  }

  lemma {:induction false} RecencyByLastUse(trace: seq<Worker>)
    ensures ByLastUse(trace, Recency(trace))
  {
    if trace == [] {
    } else {
      var before, w := trace[..|trace| - 1], trace[|trace| - 1];
      var r := Recency(before);
      RecencyByLastUse(before);
      RecencyIsDistinct(before);
      RemovalKeepsOrder(before, r, w);
      RemovedNoDuplicates(r, w);
      var rest := Removed(r, w);
      assert Recency(trace) == rest + [w];
      forall i | 0 <= i < |rest|
        ensures LastUse(trace, rest[i]) == LastUse(before, rest[i])
      {
        assert rest[i] in rest;
      }
    }
  }

  function Last(n: nat, ws: seq<Worker>): seq<Worker>
  {
    if |ws| <= n then ws else ws[|ws| - n..]
  }

  lemma {:induction false} LastOfConcat(n: nat, a: seq<Worker>, b: seq<Worker>)
    requires |b| <= n && (|b| < n ==> a == [])
    ensures Last(n, a + b) == b
  {
    assert (a + b)[|a|..] == b;
  }

  lemma {:induction false} HitOnRecency(n: nat, a: seq<Worker>, l: seq<Worker>, w: Worker)
    requires |l| <= n && (|l| < n ==> a == []) && w in l && w !in a
    ensures Last(n, Removed(a + l, w) + [w]) == Removed(l, w) + [w]
  {
    RemovedConcat(a, l, w);
    hide Removed;
    assert (a + Removed(l, w)) + [w] == a + (Removed(l, w) + [w]);
    LastOfConcat(n, a, Removed(l, w) + [w]);
  }

  lemma {:induction false} MissOnRecency(n: nat, a: seq<Worker>, l: seq<Worker>, w: Worker)
    requires 0 < n && |l| <= n && (|l| < n ==> a == []) && w !in l
    ensures Last(n, Removed(a + l, w) + [w]) == (if |l| == n then l[1..] else l) + [w]
  {
    RemovedConcat(a, l, w);
    hide Removed;
    if |l| == n {
      var front := if w in a then Removed(a, w) else a;
      assert (front + l) + [w] == (front + l[..1]) + (l[1..] + [w]);
      LastOfConcat(n, front + l[..1], l[1..] + [w]);
    }
  }

  lemma {:induction false} NotInFront(a: seq<Worker>, l: seq<Worker>, w: Worker)
    requires NoDuplicates(a + l) && w in l
    ensures w !in a
  {
    var i := IndexOf(l, w);
    assert (a + l)[|a| + i] == w;
    assert forall j :: 0 <= j < |a| ==> a[j] == (a + l)[j];
  }

  lemma {:induction false} StepOnRecency(size: nat, r: seq<Worker>, w: Worker)
    requires NoDuplicates(r)
    ensures LruStep(size, Last(size + 1, r), w) == Last(size + 1, Removed(r, w) + [w])
  {
    hide Removed;
    var l := Last(size + 1, r);
    var a := r[..|r| - |l|];
    assert r == a + l;
    assert |l| <= size + 1 && (|l| < size + 1 ==> a == []);
    if w in l {
      NotInFront(a, l, w);
      HitOnRecency(size + 1, a, l, w);
    } else {
      MissOnRecency(size + 1, a, l, w);
    }
  }

  /** The cache always holds the most recently used workers, in order of their last use. */
  lemma {:induction false} HoldsTheMostRecent(size: nat, trace: seq<Worker>)
    ensures LruRun(size, trace) == Last(size + 1, Recency(trace))
  {
    if trace == [] {
    } else {
      HoldsTheMostRecent(size, trace[..|trace| - 1]);
      RecencyIsDistinct(trace[..|trace| - 1]);
      StepOnRecency(size, Recency(trace[..|trace| - 1]), trace[|trace| - 1]);
    }
  }

  lemma {:induction false} LruShape(size: nat, trace: seq<Worker>)
    ensures NoDuplicates(LruRun(size, trace)) && ByLastUse(trace, LruRun(size, trace))
    ensures |LruRun(size, trace)| <= size + 1
  {
    HoldsTheMostRecent(size, trace);
    RecencyIsDistinct(trace);
    RecencyByLastUse(trace);
  }

  lemma {:induction false} LastOfLast(n: nat, m: nat, ws: seq<Worker>)
    requires n <= m
    ensures Last(n, Last(m, ws)) == Last(n, ws)
  {
    if |ws| > m {
      assert ws[|ws| - m..][m - n..] == ws[|ws| - n..];
    }
  }

  /** What a larger cache holds ends in what a smaller one holds. */
  lemma {:induction false} Inclusion(size: nat, larger: nat, trace: seq<Worker>)
    requires size <= larger
    ensures LruRun(size, trace) == Last(size + 1, LruRun(larger, trace))
  {
    hide LruRun, Recency;
    HoldsTheMostRecent(size, trace);
    HoldsTheMostRecent(larger, trace);
    LastOfLast(size + 1, larger + 1, Recency(trace));
  }

  /** A larger cache never starts more workers cold. */
  lemma {:induction false} ColdStartsNeverIncrease(size: nat, larger: nat, trace: seq<Worker>)
    requires size <= larger
    ensures ColdStarts(larger, trace) <= ColdStarts(size, trace)
  {
    if trace == [] {
    } else {
      ColdStartsNeverIncrease(size, larger, trace[..|trace| - 1]);
      Inclusion(size, larger, trace[..|trace| - 1]);
    }
  }

  // ---------- Hits and misses ----------

  function Elements(ws: seq<Worker>): (r: set<Worker>)
    ensures forall x :: x in r <==> x in ws
  {
    set x | x in ws
  }

  /** The workers used since the last use of `w`. */
  function UsedSince(trace: seq<Worker>, w: Worker): (r: set<Worker>)
    ensures forall x :: x in r <==> x in trace && LastUse(trace, x) > LastUse(trace, w)
  {
    set x | x in trace && LastUse(trace, x) > LastUse(trace, w)
  }

  lemma {:induction false} SizeOfElements(ws: seq<Worker>)
    requires NoDuplicates(ws)
    ensures |Elements(ws)| == |ws|
  {
    if ws == [] {
      assert Elements(ws) == {};
    } else {
      var rest := ws[1..];
      SizeOfElements(rest);
      assert ws == [ws[0]] + rest;
      assert Elements(ws) == {ws[0]} + Elements(rest);
    }
  }

  lemma {:induction false} Behind(ws: seq<Worker>, i: nat, x: Worker)
    requires NoDuplicates(ws) && i < |ws|
    ensures x in ws[i + 1..] <==> exists j :: i < j < |ws| && ws[j] == x
    ensures NoDuplicates(ws[i + 1..])
  {
    if j :| i < j < |ws| && ws[j] == x {
      assert ws[i + 1..][j - i - 1] == x;
    }
  }

  lemma {:induction false} LaterInRecency(trace: seq<Worker>, i: nat)
    requires i < |Recency(trace)|
    ensures |UsedSince(trace, Recency(trace)[i])| == |Recency(trace)| - 1 - i
  {
    hide Recency, LastUse, Elements, UsedSince, NoDuplicates;
    var r := Recency(trace);
    var later := UsedSince(trace, r[i]);
    RecencyIsDistinct(trace);
    RecencyByLastUse(trace);
    Behind(r, i, r[i]);
    SizeOfElements(r[i + 1..]);
    forall x
      ensures x in later <==> x in r[i + 1..]
    {
      Behind(r, i, x);
      if x in later {
        var j := IndexOf(r, x);
      }
    }
    assert later == Elements(r[i + 1..]);
  }

  lemma {:induction false} LastIsWithin(n: nat, r: seq<Worker>)
    ensures forall x :: x in Last(n, r) ==> x in r
  {
  }

  lemma {:induction false} InLast(n: nat, r: seq<Worker>, i: nat)
    requires NoDuplicates(r) && i < |r|
    ensures r[i] in Last(n, r) <==> |r| - i <= n
  {
    if |r| > n {
      var from := |r| - n;
      if from <= i {
        assert r[from..][i - from] == r[i];
      }
    }
  }

  /** A worker is there exactly if it has been used, and since its last use no more than `size` others have been. */
  lemma {:induction false} HeldIf(size: nat, trace: seq<Worker>, w: Worker)
    ensures w in LruRun(size, trace) <==> w in trace && |UsedSince(trace, w)| <= size
  {
    hide LruRun, Recency, LastUse, NoDuplicates, UsedSince, Last;
    var r := Recency(trace);
    LastIsWithin(size + 1, r);
    HoldsTheMostRecent(size, trace);
    RecencyIsDistinct(trace);
    if w in trace {
      var i := IndexOf(r, w);
      LaterInRecency(trace, i);
      InLast(size + 1, r, i);
      assert UsedSince(trace, r[i]) == UsedSince(trace, w);
    } else {
      assert w !in r;
    }
  }

  /** The requests for workers that were not there. */
  function Misses(size: nat, trace: seq<Worker>): (r: set<nat>)
    ensures forall i: nat :: i in r <==> i < |trace| && trace[i] !in LruRun(size, trace[..i])
  {
    set i: nat | i < |trace| && trace[i] !in LruRun(size, trace[..i])
  }

  lemma {:induction false} ColdStartsAreMisses(size: nat, trace: seq<Worker>)
    ensures ColdStarts(size, trace) == |Misses(size, trace)|
  {
    hide LruRun, Misses;
    if trace == [] {
      assert Misses(size, trace) == {};
    } else {
      var n: nat := |trace| - 1;
      var before := trace[..n];
      ColdStartsAreMisses(size, before);
      assert forall i: nat :: i < n ==> before[i] == trace[i] && before[..i] == trace[..i];
      assert Misses(size, trace)
          == Misses(size, before) + if trace[n] in LruRun(size, before) then {} else {n};
    }
  }
}
