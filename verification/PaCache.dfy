/** The pipeline-aware cache: evicts the worker whose version is least likely to come next. */
module PaCache {
  import opened Wrappers
  import opened Vsm
  import opened Sequences
  import opened Workers
  import opened VsmTransform
  import opened History

  const SENTINEL: real := 9999.0

  type Scores = seq<Matrix>
  /** For each component, all its version cells in ascending order of score. */
  type Order = seq<seq<Version>>

  predicate AllDistributions(scores: Scores)
  {
    |scores| == NUM_PIPELINE_LENGTH && forall f :: 0 <= f < |scores| ==> Distribution(scores[f])
  }

  /** Any sort of the cells will do, however it breaks ties. */
  ghost predicate Sorts(ids: seq<Version>, m: Matrix)
    requires Shaped(m)
  {
    && (forall j {:trigger ids[j]} :: 0 <= j < |ids| ==> InRange(ids[j]))
    && (forall v :: InRange(v) ==> v in ids)
    && forall j, k :: 0 <= j < k < |ids| ==> At(m, ids[j]) <= At(m, ids[k])
  }

  ghost predicate SortsAll(order: Order, scores: Scores)
    requires AllDistributions(scores)
  {
    |order| == |scores| && forall f :: 0 <= f < |order| ==> Sorts(order[f], scores[f])
  }

  predicate Known(w: Worker)
  {
    w.component < NUM_PIPELINE_LENGTH && InRange(w.version)
  }

  /** A worker of a component of the pipeline, of whatever version. */
  predicate Placed(w: Worker)
  {
    w.component < NUM_PIPELINE_LENGTH
  }

  function Score(scores: Scores, w: Worker): real
    requires AllDistributions(scores) && Known(w)
  {
    At(scores[w.component], w.version)
  }

  /** A worker of the set, with the least score over all that have one. */
  predicate LeastPossible(scores: Scores, ws: seq<Worker>, w: Worker)
    requires AllDistributions(scores)
  {
    w in ws && Known(w) && forall i :: 0 <= i < |ws| && Known(ws[i]) ==> Score(scores, w) <= Score(scores, ws[i])
  }

  // ---------- The merge ----------

  /** How many workers of the set belong to component `f`. */
  function NumWorkers(ws: seq<Worker>, f: nat): (n: nat)
    ensures n > 0 <==> exists w :: w in ws && w.component == f
  {
    if ws == [] then 0 else
    assert forall w :: w in ws <==> w in ws[..|ws| - 1] || w == ws[|ws| - 1];
    NumWorkers(ws[..|ws| - 1], f) + if ws[|ws| - 1].component == f then 1 else 0
  }

  predicate AllPlaced(ws: seq<Worker>)
  {
    forall i :: 0 <= i < |ws| ==> Placed(ws[i])
  }

  /** In the merge, the cell comes before that of the worker: by its score, or with the same by its component. */
  predicate CellAhead(scores: Scores, f: nat, v: Version, w: Worker)
    requires AllDistributions(scores) && f < NUM_PIPELINE_LENGTH && InRange(v) && Known(w)
  {
    At(scores[f], v) < Score(scores, w) || (At(scores[f], v) == Score(scores, w) && f < w.component)
  }

  /** The cell comes before those of all workers of other components. */
  ghost predicate AheadOfOthers(scores: Scores, ws: seq<Worker>, f: nat, v: Version)
    requires AllDistributions(scores) && f < NUM_PIPELINE_LENGTH && InRange(v)
  {
    forall w :: w in ws && Known(w) && w.component != f ==> CellAhead(scores, f, v, w)
  }

  /** All cells of the component come before all workers that have a score, and none of these is its own. */
  ghost predicate AllAhead(scores: Scores, ws: seq<Worker>, f: nat)
    requires AllDistributions(scores) && f < NUM_PIPELINE_LENGTH
  {
    && (forall w :: w in ws && Known(w) ==> w.component != f)
    && forall v :: InRange(v) ==> AheadOfOthers(scores, ws, f, v)
  }

  /** A component with workers runs out of cells in the merge. */
  ghost predicate RunsOut(scores: Scores, ws: seq<Worker>)
    requires AllDistributions(scores)
  {
    exists f :: 0 <= f < NUM_PIPELINE_LENGTH && NumWorkers(ws, f) > 0 && AllAhead(scores, ws, f)
  }

  /** None does if each has a worker at a version of the matrix. */
  lemma {:induction false} KnownNeverRunsOut(scores: Scores, ws: seq<Worker>)
    requires AllDistributions(scores) && forall w :: w in ws ==> Known(w)
    ensures AllPlaced(ws) && !RunsOut(scores, ws)
  {
    hide Distribution, CellAhead;
    assert forall i :: 0 <= i < |ws| ==> ws[i] in ws;
    forall f: nat | f < NUM_PIPELINE_LENGTH && NumWorkers(ws, f) > 0
      ensures !AllAhead(scores, ws, f)
    {
      var w :| w in ws && w.component == f;
    }
  }

  /** No worker of the set lies before a pointer. */
  predicate Passed(ws: seq<Worker>, order: Order, pointers: seq<nat>)
    requires |order| == |pointers|
  {
    && (forall f :: 0 <= f < |order| ==> pointers[f] <= |order[f]|)
    && forall f, j :: 0 <= f < |order| && 0 <= j < pointers[f] ==> Worker(f, order[f][j]) !in ws
  }

  /** The pointer of a component with a worker is within its cells, at a score no worker of that component undercuts. */
  lemma {:induction false} PointerBelow(scores: Scores, ws: seq<Worker>, order: Order, pointers: seq<nat>, w: Worker)
    requires AllDistributions(scores) && SortsAll(order, scores) && |pointers| == |order|
    requires Passed(ws, order, pointers) && w in ws && Known(w)
    ensures pointers[w.component] < |order[w.component]|
    ensures At(scores[w.component], order[w.component][pointers[w.component]]) <= Score(scores, w)
  {
    hide GrandSum, NonNegative;
    var ids := order[w.component];
    assert Sorts(ids, scores[w.component]);
    assert w.version in ids;
    var j: nat :| j < |ids| && ids[j] == w.version;
    assert w == Worker(w.component, ids[j]);
  }

  lemma {:induction false} CellInRange(scores: Scores, order: Order, f: nat, j: nat)
    requires AllDistributions(scores) && SortsAll(order, scores) && f < |order| && j < |order[f]|
    ensures InRange(order[f][j])
  {
    hide GrandSum, NonNegative;
    assert Sorts(order[f], scores[f]);
  }

  ghost predicate EntryAhead(scores: Scores, ws: seq<Worker>, order: Order, f: nat, j: nat)
    requires AllDistributions(scores) && f < |order| == NUM_PIPELINE_LENGTH
  {
    j < |order[f]| && InRange(order[f][j]) && AheadOfOthers(scores, ws, f, order[f][j])
  }

  /** Whatever lies before a pointer comes before the workers of other components. */
  ghost predicate Behind(scores: Scores, ws: seq<Worker>, order: Order, pointers: seq<nat>)
    requires AllDistributions(scores) && |order| == |pointers| == NUM_PIPELINE_LENGTH
  {
    forall f, j :: 0 <= f < |order| && 0 <= j < pointers[f] ==> EntryAhead(scores, ws, order, f, j)
  }

  /** A component whose pointer has left its cells has run out. */
  lemma {:induction false} LeftBehind(scores: Scores, ws: seq<Worker>, order: Order, pointers: seq<nat>, f: nat)
    requires AllDistributions(scores) && SortsAll(order, scores) && |pointers| == |order| && f < |order|
    requires Passed(ws, order, pointers) && Behind(scores, ws, order, pointers)
    requires pointers[f] >= |order[f]| && (NumWorkers(ws, f) == 0 ==> pointers[f] == 0)
    ensures RunsOut(scores, ws)
  {
    hide GrandSum, NonNegative, NumWorkers, CellAhead;
    assert Sorts(order[f], scores[f]);
    assert InRange(Version(0, 0));
    assert Version(0, 0) in order[f];
    forall w | w in ws && Known(w)
      ensures w.component != f
    {
      hide Passed, Behind;
      PointerBelow(scores, ws, order, pointers, w);
    }
    forall v | InRange(v)
      ensures AheadOfOthers(scores, ws, f, v)
    {
      hide AheadOfOthers;
      var j: nat :| j < |order[f]| && order[f][j] == v;
      assert EntryAhead(scores, ws, order, f, j);
    }
    assert AllAhead(scores, ws, f);
  }

  function CellsLeft(order: Order, pointers: seq<nat>): nat
    requires |order| == |pointers| && forall f :: 0 <= f < |order| ==> pointers[f] <= |order[f]|
  {
    if order == [] then 0 else |order[0]| - pointers[0] + CellsLeft(order[1..], pointers[1..])
  }

  lemma {:induction false} AdvanceDecreases(order: Order, pointers: seq<nat>, f: nat)
    requires |order| == |pointers| && f < |order| && forall g :: 0 <= g < |order| ==> pointers[g] <= |order[g]|
    requires pointers[f] < |order[f]|
    ensures CellsLeft(order, pointers[f := pointers[f] + 1]) == CellsLeft(order, pointers) - 1
    decreases f
  {
    if f == 0 {
      assert pointers[0 := pointers[0] + 1][1..] == pointers[1..];
    } else {
      assert pointers[f := pointers[f] + 1][1..] == pointers[1..][f - 1 := pointers[f] + 1];
      AdvanceDecreases(order[1..], pointers[1..], f - 1);
    }
  }

  /** The first index of the least value. */
  method IndexOfMin(values: seq<real>) returns (k: nat)
    requires values != []
    ensures k < |values|
    ensures forall j :: 0 <= j < |values| ==> values[k] <= values[j]
    ensures forall j :: 0 <= j < k ==> values[k] < values[j]
  {
    k := 0;
    for i := 1 to |values|
      invariant k < i
      invariant forall j :: 0 <= j < i ==> values[k] <= values[j]
      invariant forall j :: 0 <= j < k ==> values[k] < values[j]
    {
      if values[i] < values[k] {
        k := i;
      }
    }
  }

  /** The score under a pointer, or the sentinel for a component without workers. */
  predicate IsValue(scores: Scores, ws: seq<Worker>, order: Order, pointers: seq<nat>, f: nat, value: real)
    requires AllDistributions(scores) && f < |order| == |pointers| == |scores|
  {
    if NumWorkers(ws, f) == 0 then value == SENTINEL
    else pointers[f] < |order[f]| && InRange(order[f][pointers[f]]) && value == At(scores[f], order[f][pointers[f]])
  }

  lemma {:induction false} WorkerCounts(ws: seq<Worker>, i: nat)
    requires i < |ws|
    ensures NumWorkers(ws, ws[i].component) > 0
  {
    assert ws[i] in ws;
  }

  /** The least value belongs to a component with workers, and no worker that has a score scores less. */
  lemma {:induction false} LeastValue(scores: Scores, ws: seq<Worker>, order: Order, pointers: seq<nat>,
                                      values: seq<real>, k: nat)
    requires AllDistributions(scores) && SortsAll(order, scores)
    requires |pointers| == |order| == |values| && k < |order|
    requires Passed(ws, order, pointers) && ws != [] && Placed(ws[0])
    requires forall f :: 0 <= f < |order| ==> IsValue(scores, ws, order, pointers, f, values[f])
    requires forall f :: 0 <= f < |values| ==> values[k] <= values[f]
    ensures NumWorkers(ws, k) > 0 && pointers[k] < |order[k]| && InRange(order[k][pointers[k]])
    ensures forall i :: 0 <= i < |ws| && Known(ws[i]) ==>
      At(scores[k], order[k][pointers[k]]) <= Score(scores, ws[i])
  {
    hide NumWorkers, GrandSum, NonNegative, Passed, Sorts;
    var first := ws[0].component;
    WorkerCounts(ws, 0);
    assert IsValue(scores, ws, order, pointers, first, values[first]);
    ScoreAtMostOne(scores[first], order[first][pointers[first]]);
    assert IsValue(scores, ws, order, pointers, k, values[k]);
    forall i | 0 <= i < |ws| && Known(ws[i])
      ensures values[k] <= Score(scores, ws[i])
    {
      var w := ws[i];
      WorkerCounts(ws, i);
      assert IsValue(scores, ws, order, pointers, w.component, values[w.component]);
      PointerBelow(scores, ws, order, pointers, w);
    }
  }

  lemma {:induction false} AdvanceKeepsPassed(ws: seq<Worker>, order: Order, pointers: seq<nat>, k: nat)
    requires |order| == |pointers| && k < |order| && Passed(ws, order, pointers)
    requires pointers[k] < |order[k]| && Worker(k, order[k][pointers[k]]) !in ws
    ensures Passed(ws, order, pointers[k := pointers[k] + 1])
  {
  }

  lemma {:induction false} OneMoreBehind(scores: Scores, ws: seq<Worker>, order: Order, pointers: seq<nat>, k: nat)
    requires AllDistributions(scores) && |pointers| == |order| == |scores| && k < |order|
    requires Behind(scores, ws, order, pointers) && EntryAhead(scores, ws, order, k, pointers[k])
    ensures Behind(scores, ws, order, pointers[k := pointers[k] + 1])
  {
    hide EntryAhead, Distribution;
    var advanced := pointers[k := pointers[k] + 1];
    forall f, j | 0 <= f < |order| && 0 <= j < advanced[f]
      ensures EntryAhead(scores, ws, order, f, j)
    {
      assert j < pointers[f] || (f == k && j == pointers[k]);
    }
  }

  lemma {:induction false} AdvanceKeepsBehind(scores: Scores, ws: seq<Worker>, order: Order, pointers: seq<nat>,
                                             values: seq<real>, k: nat)
    requires AllDistributions(scores) && SortsAll(order, scores)
    requires |pointers| == |order| == |values| && k < |order|
    requires Passed(ws, order, pointers) && Behind(scores, ws, order, pointers)
    requires forall f :: 0 <= f < |order| ==> IsValue(scores, ws, order, pointers, f, values[f])
    requires forall f :: 0 <= f < |values| ==> values[k] <= values[f]
    requires forall f :: 0 <= f < k ==> values[k] < values[f]
    requires NumWorkers(ws, k) > 0
    ensures Behind(scores, ws, order, pointers[k := pointers[k] + 1])
  {
    hide NumWorkers, Distribution, Passed, Sorts, Behind;
    assert IsValue(scores, ws, order, pointers, k, values[k]);
    assert pointers[k] < |order[k]| && InRange(order[k][pointers[k]]);
    forall w | w in ws && Known(w) && w.component != k
      ensures CellAhead(scores, k, order[k][pointers[k]], w)
    {
      var i: nat :| i < |ws| && ws[i] == w;
      WorkerCounts(ws, i);
      assert IsValue(scores, ws, order, pointers, w.component, values[w.component]);
      PointerBelow(scores, ws, order, pointers, w);
    }
    OneMoreBehind(scores, ws, order, pointers, k);
  }

  /** Once a worker has been met, no component runs out. */
  lemma {:induction false} MetNoneRunsOut(scores: Scores, ws: seq<Worker>, order: Order, pointers: seq<nat>,
                                         values: seq<real>, w: Worker)
    requires AllDistributions(scores) && |pointers| == |order| == |values| == |scores|
    requires w in ws && Known(w) && NumWorkers(ws, w.component) > 0
    requires forall f :: 0 <= f < |order| ==> IsValue(scores, ws, order, pointers, f, values[f])
    requires forall f :: 0 <= f < |values| ==> values[w.component] <= values[f]
    requires forall f :: 0 <= f < w.component ==> values[w.component] < values[f]
    requires pointers[w.component] < |order[w.component]| && order[w.component][pointers[w.component]] == w.version
    ensures !RunsOut(scores, ws)
  {
    hide NumWorkers, Distribution;
    assert IsValue(scores, ws, order, pointers, w.component, values[w.component]);
    forall f: nat | f < NUM_PIPELINE_LENGTH && NumWorkers(ws, f) > 0
      ensures !AllAhead(scores, ws, f)
    {
      assert IsValue(scores, ws, order, pointers, f, values[f]);
      if f != w.component {
        assert !CellAhead(scores, f, order[f][pointers[f]], w);
      }
    }
  }

  datatype Transform = SL | UL

  lemma {:induction false} NothingPassed(ws: seq<Worker>, order: Order, pointers: seq<nat>)
    requires |order| == |pointers| && forall f :: 0 <= f < |order| ==> pointers[f] == 0
    ensures Passed(ws, order, pointers)
    ensures forall scores: Scores :: AllDistributions(scores) && |order| == NUM_PIPELINE_LENGTH ==>
      Behind(scores, ws, order, pointers)
  {
  }

  lemma {:induction false} AdvanceInRange(order: Order, pointers: seq<nat>, k: nat)
    requires |order| == |pointers| && k < |order| && pointers[k] < |order[k]|
    requires forall f :: 0 <= f < |order| ==> pointers[f] <= |order[f]|
    ensures forall f :: 0 <= f < |order| ==> pointers[k := pointers[k] + 1][f] <= |order[f]|
  {
  }

  lemma {:induction false} RemovalKeepsDistinct(scores: Scores, ws: seq<Worker>, w: Worker)
    requires AllDistributions(scores) && NoDuplicates(ws) && LeastPossible(scores, ws, w)
    ensures w in ws && NoDuplicates(Removed(ws, w)) && |Removed(ws, w)| == |ws| - 1
    ensures forall x :: x in Removed(ws, w) ==> x in ws
  {
    RemovedNoDuplicates(ws, w);
  }

  class PACache {
    const workerSetSize: nat
    const vsms: seq<VersionScores>
    const alpha: real
    var workerSet: seq<Worker>
    var numColdStart: nat

    function Scores(): (s: Scores)
      reads vsms
      ensures |s| == |vsms| && forall f :: 0 <= f < |s| ==> s[f] == vsms[f].data
    {
      seq(|vsms|, f requires 0 <= f < |vsms| reads vsms => vsms[f].data)
    }

    ghost predicate Valid()
      reads this, vsms
    {
      && Table(vsms, alpha) && AllDistributions(Scores())
      && NoDuplicates(workerSet) && |workerSet| <= workerSetSize + 1
    }

    constructor (workerSetSize: nat, vsms: seq<VersionScores>, alpha: real)
      requires Table(vsms, alpha)
      ensures Valid() && this.workerSetSize == workerSetSize && this.vsms == vsms
      ensures workerSet == [] && numColdStart == 0
    {
      this.workerSetSize, this.vsms, this.alpha := workerSetSize, vsms, alpha;
      workerSet, numColdStart := [], 0;
    }

    /** Fails with an index error when a worker has no component, or a component runs out of cells. */
    method LeastPossibleWorker(order: Order) returns (least: Option<Worker>)
      requires Valid() && SortsAll(order, Scores()) && workerSet != []
      ensures least.Some? ==> LeastPossible(Scores(), workerSet, least.value)
      ensures least.None? <==> !AllPlaced(workerSet) || RunsOut(Scores(), workerSet)
    {
      hide GrandSum, NonNegative, NumWorkers, CellsLeft, Passed, Sorts, IsValue, Behind, RunsOut;
      var pointers: seq<nat> := seq(NUM_PIPELINE_LENGTH, _ => 0);
      var placed, numWorkers := CountWorkers();
      if !placed {
        return None;
      }
      NothingPassed(workerSet, order, pointers);
      while true
        invariant |pointers| == |order| && Passed(workerSet, order, pointers)
        invariant Behind(Scores(), workerSet, order, pointers)
        invariant forall f :: 0 <= f < |order| ==> pointers[f] <= |order[f]|
        invariant forall f :: 0 <= f < |order| && numWorkers[f] == 0 ==> pointers[f] == 0
        decreases CellsLeft(order, pointers)
      {
        var inCells, values := Values(order, pointers, numWorkers);
        if !inCells {
          return None;
        }
        var fMin := IndexOfMin(values);
        LeastValue(Scores(), workerSet, order, pointers, values, fMin);
        var minValueVersion := order[fMin][pointers[fMin]];
        for i := 0 to |workerSet|
          invariant Worker(fMin, minValueVersion) !in workerSet[..i]
        {
          if workerSet[i].component == fMin && workerSet[i].version == minValueVersion {
            MetNoneRunsOut(Scores(), workerSet, order, pointers, values, workerSet[i]);
            return Some(workerSet[i]);
          }
        }
        AdvanceKeepsPassed(workerSet, order, pointers, fMin);
        AdvanceKeepsBehind(Scores(), workerSet, order, pointers, values, fMin);
        AdvanceDecreases(order, pointers, fMin);
        AdvanceInRange(order, pointers, fMin);
        pointers := pointers[fMin := pointers[fMin] + 1];
      }
    }

    method CountWorkers() returns (ok: bool, numWorkers: seq<nat>)
      requires Valid()
      ensures ok <==> AllPlaced(workerSet)
      ensures ok ==> |numWorkers| == NUM_PIPELINE_LENGTH
      ensures ok ==> forall f :: 0 <= f < |numWorkers| ==> numWorkers[f] == NumWorkers(workerSet, f)
    {
      hide GrandSum, NonNegative, NoDuplicates;
      numWorkers := seq(NUM_PIPELINE_LENGTH, _ => 0);
      for i := 0 to |workerSet|
        invariant |numWorkers| == NUM_PIPELINE_LENGTH
        invariant forall j :: 0 <= j < i ==> Placed(workerSet[j])
        invariant forall f :: 0 <= f < |numWorkers| ==> numWorkers[f] == NumWorkers(workerSet[..i], f)
      {
        var f := workerSet[i].component;
        if f >= |numWorkers| {
          return false, numWorkers;
        }
        assert workerSet[..i + 1][..i] == workerSet[..i];
        numWorkers := numWorkers[f := numWorkers[f] + 1];
      }
      assert workerSet[..|workerSet|] == workerSet;
      return true, numWorkers;
    }

    /** The scores under the pointers, of all components; then the sentinel for those without workers. */
    method Values(order: Order, pointers: seq<nat>, numWorkers: seq<nat>) returns (ok: bool, values: seq<real>)
      requires Valid() && SortsAll(order, Scores()) && |pointers| == |order| && Passed(workerSet, order, pointers)
      requires |numWorkers| == |order| && forall f :: 0 <= f < |order| ==> numWorkers[f] == NumWorkers(workerSet, f)
      requires forall f :: 0 <= f < |order| && numWorkers[f] == 0 ==> pointers[f] == 0
      requires Behind(Scores(), workerSet, order, pointers)
      ensures !ok ==> RunsOut(Scores(), workerSet)
      ensures ok ==> |values| == |order|
      ensures ok ==> forall f :: 0 <= f < |order| ==> IsValue(Scores(), workerSet, order, pointers, f, values[f])
    {
      hide GrandSum, NonNegative, CellsLeft, Passed, NumWorkers, Sorts, Behind, RunsOut;
      values := [];
      for f := 0 to |order|
        invariant |values| == f
        invariant forall g :: 0 <= g < f ==>
          && pointers[g] < |order[g]| && InRange(order[g][pointers[g]])
          && values[g] == At(Scores()[g], order[g][pointers[g]])
      {
        if pointers[f] >= |order[f]| {
          LeftBehind(Scores(), workerSet, order, pointers, f);
          return false, values;
        }
        CellInRange(Scores(), order, f, pointers[f]);
        var cell := order[f][pointers[f]];
        values := values + [vsms[f].data[cell.major][cell.minor]];
      }
      for f := 0 to |order|
        invariant |values| == |order|
        invariant forall g :: 0 <= g < f ==> IsValue(Scores(), workerSet, order, pointers, g, values[g])
        invariant forall g :: f <= g < |order| ==>
          && pointers[g] < |order[g]| && InRange(order[g][pointers[g]])
          && values[g] == At(Scores()[g], order[g][pointers[g]])
      {
        if numWorkers[f] == 0 {
          values := values[f := SENTINEL];
        }
      }
      return true, values;
    }

    /** On a miss at capacity, a least possible worker makes room; the search for it can fail with an index error. */
    method Get(w: Worker, order: Order) returns (hit: bool, ok: bool, ghost evicted: Worker)
      requires Valid() && SortsAll(order, Scores())
      modifies this
      ensures Valid() && hit == (w in old(workerSet))
      ensures hit ==> ok && workerSet == old(workerSet) && numColdStart == old(numColdStart)
      ensures !hit ==> numColdStart == old(numColdStart) + 1
      ensures !hit && |old(workerSet)| <= workerSetSize ==> ok && workerSet == old(workerSet) + [w]
      ensures !hit && |old(workerSet)| > workerSetSize ==>
        if AllPlaced(old(workerSet)) && !RunsOut(Scores(), old(workerSet)) then
          && ok && LeastPossible(Scores(), old(workerSet), evicted)
          && workerSet == Removed(old(workerSet), evicted) + [w]
        else !ok && workerSet == old(workerSet)
    {
      hide GrandSum, NonNegative, LeastPossible, Removed, RunsOut, AllPlaced;
      evicted := w;
      for i := 0 to |workerSet|
        invariant w !in workerSet[..i]
      {
        if workerSet[i] == w {
          return true, true, w;
        }
      }
      numColdStart := numColdStart + 1;
      if |workerSet| > workerSetSize {
        var least := LeastPossibleWorker(order);
        if least.None? {
          return false, false, evicted;
        }
        evicted := least.value;
        RemovalKeepsDistinct(Scores(), workerSet, evicted);
        assert w !in Removed(workerSet, evicted);
        workerSet := Removed(workerSet, least.value);
      }
      workerSet := workerSet + [w];
      return false, true, evicted;
    }

    /** Moves the scores by the history; the cached workers stay, and every score stays a probability. */
    method Update(transform: Transform, history: History) returns (ok: bool)
      requires Valid() && history.Valid()
      modifies vsms
      ensures Valid()
      ensures var es := history.Entries();
        ok <==> transform.SL? || |es| <= 2 || NoneFails(es[|es| - 1], es[|es| - 2])
      ensures var es := history.Entries();
        forall k :: 0 <= k < |vsms| ==>
          vsms[k].data == match transform
            case SL => if |es| <= 1 then old(vsms[k].data) else Scaled(alpha, old(vsms[k].data), SlBatch(es, k))
            case UL => UlResult(alpha, es, k, old(vsms[k].data))
      ensures var es := history.Entries();
        transform.UL? && ok ==> forall k :: 0 <= k < |vsms| ==>
          vsms[k].data == if |es| <= 2 then old(vsms[k].data)
                          else UlScores(alpha, es[|es| - 1], es[|es| - 2], k, NUM_PIPELINE_LENGTH, old(vsms[k].data))
    {
      hide GrandSum, NonNegative, Scaled, UlResult;
      ok := true;
      match transform
      case SL => var _ := TransformSL(vsms, history, alpha);
      case UL =>
        var looked, _ := TransformUL(vsms, history, alpha);
        ok := looked;
    }
  }

  /** Uniform scores for every component. */
  method GenerateScoreMatrices(alpha: real) returns (vsms: seq<VersionScores>)
    requires 0.0 <= alpha <= 1.0
    ensures Table(vsms, alpha) && forall k :: 0 <= k < |vsms| ==> fresh(vsms[k]) && vsms[k].data == Uniform()
  {
    hide Distribution;
    vsms := [];
    for i := 0 to NUM_PIPELINE_LENGTH
      invariant |vsms| == i
      invariant forall k :: 0 <= k < i ==>
        fresh(vsms[k]) && vsms[k].Valid() && vsms[k].alpha == alpha && vsms[k].data == Uniform()
      invariant forall j, k :: 0 <= j < k < i ==> vsms[j] != vsms[k]
    {
      var v := new VersionScores(alpha);
      vsms := vsms + [v];
    }
  }
}
