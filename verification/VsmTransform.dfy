/** The two score transforms: what the submitted history moves in each component's version scores. */
module VsmTransform {
  import opened Vsm
  import opened History

  // ---------- Transform "SL" ----------

  function Left(entries: seq<Pipeline>, k: nat, n: nat): set<Version>
    requires n < |entries| && k < NUM_PIPELINE_LENGTH && AllFit(entries)
  {
    set i | 0 <= i < n && entries[i][k] != entries[|entries| - 1][k] :: entries[i][k]
  }

  /** All versions but those the component had before and no longer has. */
  function SlBatch(entries: seq<Pipeline>, k: nat): (vs: set<Version>)
    requires entries != [] && k < NUM_PIPELINE_LENGTH && AllFit(entries)
    ensures vs <= AllVersions()
  {
    AllVersions() - Left(entries, k, |entries| - 1)
  }

  lemma {:induction false} SlBatchNonEmpty(entries: seq<Pipeline>, k: nat)
    requires entries != [] && k < NUM_PIPELINE_LENGTH && AllFit(entries)
    ensures entries[|entries| - 1][k] in SlBatch(entries, k) <==> InRange(entries[|entries| - 1][k])
  {
  }

  /** Out of the batch are exactly the versions that the component had before and does not have now. */
  lemma {:induction false} SlBatchIs(entries: seq<Pipeline>, k: nat, v: Version)
    requires entries != [] && k < NUM_PIPELINE_LENGTH && AllFit(entries) && InRange(v)
    ensures var last := |entries| - 1;
      v !in SlBatch(entries, k) <==> v != entries[last][k] && exists i :: 0 <= i < last && entries[i][k] == v
  {
  }

  lemma {:induction false} FewerThan(a: set<Version>, b: set<Version>)
    requires a <= b
    ensures |a| <= |b|
  {
    assert b == a + (b - a);
  }

  /** So only these get no share, when the current version is one of the matrix. */
  lemma {:induction false} SlCell(alpha: real, entries: seq<Pipeline>, k: nat, m: Matrix, v: Version)
    requires entries != [] && k < NUM_PIPELINE_LENGTH && AllFit(entries) && Shaped(m) && InRange(v)
    requires InRange(entries[|entries| - 1][k])
    ensures var last := |entries| - 1;
      && 0 < |SlBatch(entries, k)| <= 16
      && At(Scaled(alpha, m, SlBatch(entries, k)), v)
         == (1.0 - alpha) * At(m, v)
            + if v != entries[last][k] && exists i :: 0 <= i < last && entries[i][k] == v then 0.0
              else alpha / |SlBatch(entries, k)| as real
  {
    hide SlBatch, Scaled;
    SlBatchIs(entries, k, v);
    SlBatchNonEmpty(entries, k);
    ScaledAt(alpha, m, SlBatch(entries, k), v);
    SixteenVersions();
    FewerThan(SlBatch(entries, k), AllVersions());
  }

  // ---------- Transform "UL" ----------

  /** Exactly one of the two parts of the version changed. */
  predicate Stepped(now: Version, before: Version)
  {
    (now.major == before.major && now.minor != before.minor) || (now.major != before.major && now.minor == before.minor)
  }

  /** The version the transform extrapolates to from a step. */
  function Extrapolated(now: Version, before: Version): Version
  {
    if now.major != before.major
    then Version(now.major, 2 * before.minor - now.minor)
    else Version(2 * before.major - now.major, now.minor)
  }

  /** It only ever moves score to the version just submitted: the part it extrapolates is the unchanged one. */
  lemma {:induction false} ExtrapolatesToItself(now: Version, before: Version)
    requires Stepped(now, before)
    ensures Extrapolated(now, before) == now
  {
  }

  /** The guard of the step, on the unchanged part alone. */
  predicate Guarded(now: Version, before: Version)
  {
    var e := Extrapolated(now, before);
    if now.major != before.major then 0 <= e.minor <= MAX_MINOR_VERSION else 0 <= e.major <= MAX_MAJOR_VERSION
  }

  /** A step that moves score to a version, or fails at it because its changed part is no index. */
  predicate Gains(now: Version, before: Version)
  {
    Stepped(now, before) && Guarded(now, before) && Indexable(now)
  }

  predicate Fails(now: Version, before: Version)
  {
    Stepped(now, before) && Guarded(now, before) && !Indexable(now)
  }

  /** Within the matrix, every step moves score and none fails. */
  lemma {:induction false} StepsWithinGain(now: Version, before: Version)
    requires InRange(now) && InRange(before)
    ensures Gains(now, before) <==> Stepped(now, before)
    ensures !Fails(now, before)
  {
  }

  function UlBatch(v: Version): (vs: set<Version>)
    ensures vs <= AllVersions()
  {
    AllVersions() - {v}
  }

  /** The batch is every version but one, so that the fifteen others gain. */
  lemma {:induction false} UlBatchIs(v: Version, u: Version)
    requires InRange(u)
    ensures u in UlBatch(v) <==> u != v
    ensures InRange(v) ==> |UlBatch(v)| == 15
  {
    SixteenVersions();
  }

  lemma {:induction false} UlBatchNonEmpty(v: Version)
    ensures UlBatch(v) != {}
  {
    var other := if v == Version(0, 0) then Version(1, 1) else Version(0, 0);
    assert other in UlBatch(v);
  }

  /** What looking at component `k` does to the scores of component `i`. */
  function UlStep(alpha: real, now: Pipeline, before: Pipeline, i: nat, k: nat, m: Matrix): (r: Matrix)
    requires i < |now| == |before| && k < |now| && Shaped(m)
    ensures Shaped(r)
  {
    if !Stepped(now[k], before[k]) then m
    else if i < k - 1 then Scaled(alpha, m, UlBatch(now[i]))
    else if i == k && Gains(now[i], before[i]) then Scaled(alpha, m, {Cell(now[i])})
    else m
  }

  lemma {:induction false} OthersGain(alpha: real, m: Matrix, u: Version, v: Version)
    requires Shaped(m) && InRange(u) && InRange(v)
    ensures At(Scaled(alpha, m, UlBatch(u)), v) == (1.0 - alpha) * At(m, v) + if v == u then 0.0 else alpha / 15.0
  {
    hide Scaled, UlBatch, Shaped;
    UlBatchIs(u, v);
    UlBatchNonEmpty(u);
    ScaledAt(alpha, m, UlBatch(u), v);
  }

  /** Which versions a round gains for, and which it fails at, in terms of their parts. */
  lemma {:induction false} GainOrFailure(now: Version, before: Version)
    ensures var stepped := (now.major == before.major) != (now.minor == before.minor);
      var kept, moved := if now.major == before.major then now.major else now.minor,
                         if now.major == before.major then now.minor else now.major;
      && (Gains(now, before) <==> stepped && 0 <= kept <= 3 && -4 <= moved <= 3)
      && (Fails(now, before) <==> stepped && 0 <= kept <= 3 && !(-4 <= moved <= 3))
  {
  }

  /**
   * What one round does to each cell, in terms of the versions alone. It does nothing unless exactly one part of the
   * version of component `k` changed.
   */
  lemma {:induction false} UlCell(alpha: real, now: Pipeline, before: Pipeline, i: nat, k: nat, m: Matrix, v: Version)
    requires i < |now| == |before| && k < |now| && Shaped(m) && InRange(v) && InRange(now[i]) && InRange(before[i])
    ensures var stepped := (now[k].major == before[k].major) != (now[k].minor == before[k].minor);
      At(UlStep(alpha, now, before, i, k, m), v)
      == if stepped && i + 1 < k then (1.0 - alpha) * At(m, v) + (if v == now[i] then 0.0 else alpha / 15.0)
         else if stepped && i == k then (1.0 - alpha) * At(m, v) + (if v == now[i] then alpha else 0.0)
         else At(m, v)
  {
    GainOrFailure(now[k], before[k]);
    hide Scaled, UlBatch, Gains, Indexable, Cell, Shaped;
    if i + 1 < k {
      OthersGain(alpha, m, now[i], v);
    } else if i == k {
      assert |{now[i]}| == 1 && alpha / 1 as real == alpha;
      ScaledAt(alpha, m, {now[i]}, v);
    }
  }

  /** The scores of component `i` once the first `n` components have been looked at. */
  function UlScores(alpha: real, now: Pipeline, before: Pipeline, i: nat, n: nat, m: Matrix): (r: Matrix)
    requires i < |now| == |before| && n <= |now| && Shaped(m)
    ensures Shaped(r)
  {
    if n == 0 then m else
    UlStep(alpha, now, before, i, n - 1, UlScores(alpha, now, before, i, n - 1, m))
  }

  function Steps(now: Pipeline, before: Pipeline, from: nat, n: nat): nat
    requires |now| == |before| && n <= |now|
  {
    if n <= from then 0 else Steps(now, before, from, n - 1) + if Stepped(now[n - 1], before[n - 1]) then 1 else 0
  }

  /** The components from `from` on, before `n`, of which exactly one part changed. */
  lemma {:induction false} StepsCount(now: Pipeline, before: Pipeline, from: nat, n: nat)
    requires |now| == |before| && n <= |now|
    ensures Steps(now, before, from, n)
         == |set k | from <= k < n && (now[k].major == before[k].major) != (now[k].minor == before[k].minor)|
    decreases n
  {
    var s := set k | from <= k < n && (now[k].major == before[k].major) != (now[k].minor == before[k].minor);
    if n <= from {
      assert s == {};
    } else {
      StepsCount(now, before, from, n - 1);
      var t := set k | from <= k < n - 1 && (now[k].major == before[k].major) != (now[k].minor == before[k].minor);
      assert s == if Stepped(now[n - 1], before[n - 1]) then t + {n - 1} else t;
    }
  }

  function Repeated(alpha: real, m: Matrix, vs: set<Version>, times: nat): (r: Matrix)
    requires Shaped(m)
    ensures Shaped(r)
  {
    if times == 0 then m else Scaled(alpha, Repeated(alpha, m, vs, times - 1), vs)
  }

  /**
   * A component first gains score at its own version if it stepped, and then once away from its own version for each
   * component that stepped at least two places further down the pipeline.
   */
  lemma {:induction false} UlScoresInClosedForm(alpha: real, now: Pipeline, before: Pipeline, i: nat, n: nat, m: Matrix)
    requires i < |now| == |before| && n <= |now| && Shaped(m)
    ensures UlScores(alpha, now, before, i, n, m) ==
            Repeated(alpha, if i < n && Gains(now[i], before[i]) then Scaled(alpha, m, {Cell(now[i])}) else m,
                     UlBatch(now[i]), Steps(now, before, i + 2, n))
  {
    hide Scaled, Stepped, Guarded, Indexable, Cell;
    if n == 0 {
    } else {
      UlScoresInClosedForm(alpha, now, before, i, n - 1, m);
    }
  }

  // ---------- The transforms ----------

  /** A table of score objects, one for each component. */
  ghost predicate Table(vsms: seq<VersionScores>, alpha: real)
    reads vsms
  {
    && |vsms| == NUM_PIPELINE_LENGTH
    && (forall k :: 0 <= k < |vsms| ==> vsms[k].Valid() && vsms[k].alpha == alpha)
    && forall j, k :: 0 <= j < k < |vsms| ==> vsms[j] != vsms[k]
  }

  method TransformSL(vsms: seq<VersionScores>, history: History, ghost alpha: real)
    returns (r: seq<VersionScores>)
    requires Table(vsms, alpha) && history.Valid()
    modifies vsms
    ensures r == vsms && Table(vsms, alpha)
    ensures forall k :: 0 <= k < |vsms| ==>
      vsms[k].data == if |history.Entries()| <= 1 then old(vsms[k].data)
                      else Scaled(alpha, old(vsms[k].data), SlBatch(history.Entries(), k))
  {
    hide Scaled, Spread, GrandSum, NonNegative, Cells, Indexable;
    r := vsms;
    var entries := history.Entries();
    if |entries| <= 1 {
      return;
    }
    var last := |entries| - 1;
    var p := entries[last];
    for k := 0 to |p|
      invariant Table(vsms, alpha) && unchanged(history)
      invariant forall j :: k <= j < |vsms| ==> vsms[j].data == old(vsms[j].data)
      invariant forall j :: 0 <= j < k ==> vsms[j].data == Scaled(alpha, old(vsms[j].data), SlBatch(entries, j))
    {
      var left: set<Version> := {};
      for i := 0 to last
        invariant left == Left(entries, k, i)
      {
        if entries[i][k] != p[k] {
          left := left + {entries[i][k]};
        }
      }
      var _ := vsms[k].ScaleBatch(AllVersions() - left);
    }
  }

  /** The inner loop: components at least two places before `k` lose score at their own versions. */
  method ScaleBefore(vsms: seq<VersionScores>, now: Pipeline, k: nat, ghost alpha: real)
    requires Table(vsms, alpha) && |now| == NUM_PIPELINE_LENGTH && k < |now|
    modifies vsms
    ensures Table(vsms, alpha)
    ensures forall j :: 0 <= j < |vsms| ==>
      vsms[j].data == if j < k - 1 then Scaled(alpha, old(vsms[j].data), UlBatch(now[j])) else old(vsms[j].data)
  {
    hide Scaled, Spread, GrandSum, NonNegative, UlBatch, Cells, Indexable, AllVersions;
    var i := 0;
    while i < k - 1
      invariant 0 <= i && (i == 0 || i <= k - 1)
      invariant Table(vsms, alpha)
      invariant forall j :: 0 <= j < i ==> vsms[j].data == Scaled(alpha, old(vsms[j].data), UlBatch(now[j]))
      invariant forall j :: i <= j < |vsms| ==> vsms[j].data == old(vsms[j].data)
    {
      var _ := vsms[i].ScaleBatch(UlBatch(now[i]));
      i := i + 1;
    }
  }

  /** One round of the loop of `TransformUL`; fails with an index error where the guard lets a version pass that is no
      index. */
  method StepUL(vsms: seq<VersionScores>, now: Pipeline, before: Pipeline, k: nat, ghost alpha: real)
    returns (ok: bool)
    requires Table(vsms, alpha) && |now| == |before| == NUM_PIPELINE_LENGTH && k < |now|
    modifies vsms
    ensures Table(vsms, alpha) && (ok <==> !Fails(now[k], before[k]))
    ensures forall j :: 0 <= j < |vsms| ==> vsms[j].data == UlStep(alpha, now, before, j, k, old(vsms[j].data))
  {
    hide Scaled, Spread, GrandSum, NonNegative, UlBatch, Cell, Cells, AllVersions;
    var v, u := now[k], before[k];
    ok := true;
    if (v.major == u.major && v.minor != u.minor) || (v.major != u.major && v.minor == u.minor) {
      ScaleBefore(vsms, now, k, alpha);
      if v.major != u.major && v.minor == u.minor {
        if 0 <= 2 * u.minor - v.minor <= MAX_MINOR_VERSION {
          ok := vsms[k].ScaleEntry(Version(v.major, 2 * u.minor - v.minor));
        }
      }
      if v.major == u.major && v.minor != u.minor {
        if 0 <= 2 * u.major - v.major <= MAX_MAJOR_VERSION {
          ok := vsms[k].ScaleEntry(Version(2 * u.major - v.major, v.minor));
        }
      }
    }
  }

  /** How many components are looked at: all, or those up to the first failure. */
  function Looked(now: Pipeline, before: Pipeline, from: nat): (n: nat)
    requires |now| == |before| && from <= |now|
    ensures from <= n <= |now|
    ensures forall k :: from <= k < n - 1 ==> !Fails(now[k], before[k])
    ensures n < |now| ==> n > 0 && Fails(now[n - 1], before[n - 1])
    decreases |now| - from
  {
    if from == |now| then from else if Fails(now[from], before[from]) then from + 1 else Looked(now, before, from + 1)
  }

  predicate NoneFails(now: Pipeline, before: Pipeline)
    requires |now| == |before|
  {
    forall k :: 0 <= k < |now| ==> !Fails(now[k], before[k])
  }

  /** The scores after the transform, whether or not it fails on the way. */
  function UlResult(alpha: real, entries: seq<Pipeline>, k: nat, m: Matrix): (r: Matrix)
    requires AllFit(entries) && k < NUM_PIPELINE_LENGTH && Shaped(m)
    ensures Shaped(r)
  {
    if |entries| <= 2 then m else
    var now, before := entries[|entries| - 1], entries[|entries| - 2];
    UlScores(alpha, now, before, k, Looked(now, before, 0), m)
  }

  method TransformUL(vsms: seq<VersionScores>, history: History, ghost alpha: real)
    returns (ok: bool, r: seq<VersionScores>)
    requires Table(vsms, alpha) && history.Valid()
    modifies vsms
    ensures r == vsms && Table(vsms, alpha)
    ensures var es := history.Entries();
      && (ok <==> |es| <= 2 || NoneFails(es[|es| - 1], es[|es| - 2]))
      && (forall k :: 0 <= k < |vsms| ==> vsms[k].data == UlResult(alpha, es, k, old(vsms[k].data)))
      && (|es| <= 2 ==> forall k :: 0 <= k < |vsms| ==> vsms[k].data == old(vsms[k].data))
      && (|es| > 2 && ok ==> forall k :: 0 <= k < |vsms| ==>
            vsms[k].data == UlScores(alpha, es[|es| - 1], es[|es| - 2], k, NUM_PIPELINE_LENGTH, old(vsms[k].data)))
  {
    hide Scaled, GrandSum, NonNegative, UlBatch, Fails, UlStep;
    r := vsms;
    var entries := history.Entries();
    if |entries| <= 2 {
      return true, r;
    }
    var now, before := entries[|entries| - 1], entries[|entries| - 2];
    for k := 0 to |now|
      invariant Table(vsms, alpha) && unchanged(history)
      invariant forall j :: 0 <= j < k ==> !Fails(now[j], before[j])
      invariant Looked(now, before, 0) == Looked(now, before, k)
      invariant forall j :: 0 <= j < |vsms| ==> vsms[j].data == UlScores(alpha, now, before, j, k, old(vsms[j].data))
    {
      ok := StepUL(vsms, now, before, k, alpha);
      if !ok {
        return false, r;
      }
    }
    return true, r;
  }
}
