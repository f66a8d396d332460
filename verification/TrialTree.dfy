/** The trial tree of a set of workspaces: built, searched, marked and searched again. */
module TrialTree {
  import opened Wrappers
  import opened Keys
  import opened Sequences
  import opened TrialProduct
  import opened TrialSearch

  function ApiAt(w: Pipeline, i: nat): int
    requires i < |w|
  {
    w[i].componentVersion.apiVersion
  }

  /** The keys at stage `j` of the workspaces whose key at stage `i` has this API version. */
  function KeysAt(ws: seq<Pipeline>, i: nat, j: nat, api: int): set<Key>
    requires forall w :: w in ws ==> i < |w| && j < |w|
  {
    set w: Pipeline | w in ws && ApiAt(w, i) == api :: w[j]
  }

  /** For each API version in use at stage `i`, the keys there and the keys that follow. */
  ghost predicate Grouped(ws: seq<Pipeline>, i: nat, current: map<int, set<Key>>, next: map<int, set<Key>>)
    requires forall w :: w in ws ==> i + 1 < |w|
  {
    && current.Keys == next.Keys
    && (forall w :: w in ws ==> ApiAt(w, i) in current)
    && (forall api :: api in current ==> current[api] == KeysAt(ws, i, i, api))
    && (forall api :: api in next ==> next[api] == KeysAt(ws, i, i + 1, api))
  }

  lemma {:induction false} KeysAtOneMore(ws: seq<Pipeline>, w: Pipeline, i: nat, j: nat, api: int)
    requires (forall v :: v in ws ==> i < |v| && j < |v|) && i < |w| && j < |w|
    ensures (forall v :: v in ws + [w] ==> i < |v| && j < |v|)
    ensures KeysAt(ws + [w], i, j, api) == KeysAt(ws, i, j, api) + if ApiAt(w, i) == api then {w[j]} else {}
  {
    assert forall v :: v in ws + [w] <==> v in ws || v == w;
  }

  lemma {:induction false} NoKeysAt(ws: seq<Pipeline>, i: nat, j: nat, api: int)
    requires (forall v :: v in ws ==> i < |v| && j < |v|) && forall v :: v in ws ==> ApiAt(v, i) != api
    ensures KeysAt(ws, i, j, api) == {}
  {
  }

  lemma {:induction false} OneMore(ws: seq<Pipeline>, w: Pipeline, i: nat, current: map<int, set<Key>>,
                                   next: map<int, set<Key>>, current': map<int, set<Key>>, next': map<int, set<Key>>)
    requires (forall v :: v in ws ==> i + 1 < |v|) && i + 1 < |w| && Grouped(ws, i, current, next)
    requires var api := ApiAt(w, i);
      && current' == current[api := (if api in current then current[api] else {}) + {w[i]}]
      && next' == next[api := (if api in next then next[api] else {}) + {w[i + 1]}]
    ensures forall v :: v in ws + [w] ==> i + 1 < |v|
    ensures Grouped(ws + [w], i, current', next')
  {
    hide KeysAt;
    var here := ApiAt(w, i);
    assert forall v :: v in ws + [w] <==> v in ws || v == w;
    if here !in current {
      NoKeysAt(ws, i, i, here);
      NoKeysAt(ws, i, i + 1, here);
    }
    forall api | api in current'
      ensures current'[api] == KeysAt(ws + [w], i, i, api) && next'[api] == KeysAt(ws + [w], i, i + 1, api)
    {
      KeysAtOneMore(ws, w, i, i, api);
      KeysAtOneMore(ws, w, i, i + 1, api);
    }
  }

  method CompatibilityAt(ws: seq<Pipeline>, i: nat) returns (current: map<int, set<Key>>, next: map<int, set<Key>>)
    requires forall w :: w in ws ==> i + 1 < |w|
    ensures Grouped(ws, i, current, next)
  {
    current, next := map[], map[];
    for x := 0 to |ws|
      invariant Grouped(ws[..x], i, current, next)
    {
      var w := ws[x];
      assert w in ws;
      assert ws[..x + 1] == ws[..x] + [w];
      ghost var c0, n0 := current, next;
      var api := ApiAt(w, i);
      if api !in current {
        current := current[api := {}];
        next := next[api := {}];
      }
      current := current[api := current[api] + {w[i]}];
      next := next[api := next[api] + {w[i + 1]}];
      OneMore(ws[..x], w, i, c0, n0, current, next);
    }
    assert ws[..|ws|] == ws;
  }

  lemma {:induction false} GroupedPairs(ws: seq<Pipeline>, i: nat, current: map<int, set<Key>>,
                                        next: map<int, set<Key>>, k: Key, l: Key)
    requires (forall w :: w in ws ==> i + 1 < |w|) && Grouped(ws, i, current, next)
    ensures (exists api: int :: api in current && k in current[api] && l in next[api])
       <==> exists v: Pipeline, w: Pipeline :: MatchedAt(ws, i, v, w, k, l)
  {
    if api: int :| api in current && k in current[api] && l in next[api] {
      var v: Pipeline :| v in ws && v[i] == k && ApiAt(v, i) == api;
      var w: Pipeline :| w in ws && w[i + 1] == l && ApiAt(w, i) == api;
      assert MatchedAt(ws, i, v, w, k, l);
    }
    if v: Pipeline, w: Pipeline :| MatchedAt(ws, i, v, w, k, l) {
      var api := ApiAt(v, i);
      assert api in current && k in current[api] && l in next[api];
    }
  }

  lemma {:induction false} MatchedOneMore(ws: seq<Pipeline>, i: nat, k: Key, l: Key)
    ensures MatchedBefore(ws, i + 1, k, l)
        <==> MatchedBefore(ws, i, k, l) || exists v: Pipeline, w: Pipeline :: MatchedAt(ws, i, v, w, k, l)
  {
    if MatchedBefore(ws, i + 1, k, l) {
      var j: nat, v, w :| j < i + 1 && MatchedAt(ws, j, v, w, k, l);
      if j < i {
        assert MatchedBefore(ws, i, k, l);
      }
    }
    if v: Pipeline, w: Pipeline :| MatchedAt(ws, i, v, w, k, l) {
      assert i < i + 1 && MatchedAt(ws, i, v, w, k, l);
    }
  }

  /** No workspace is shorter than the first, so all of them have the stages for which pairs are collected. */
  predicate NoShorter(ws: seq<Pipeline>)
  {
    ws != [] && forall w :: w in ws ==> |w| >= |ws[0]|
  }

  method CompatibilityDict(ws: seq<Pipeline>) returns (comp: Compatibility)
    requires NoShorter(ws)
    ensures forall k: Key, l: Key :: (k, l) in comp <==> Matched(ws, k, l)
  {
    comp := {};
    for i := 0 to Pairs(ws)
      invariant forall k: Key, l: Key :: (k, l) in comp <==> MatchedBefore(ws, i, k, l)
    {
      var current, next := CompatibilityAt(ws, i);
      var pairs := set api: int, k: Key, l: Key | api in current && k in current[api] && l in next[api] :: (k, l);
      forall k: Key, l: Key
        ensures (k, l) in comp + pairs <==> MatchedBefore(ws, i + 1, k, l)
      {
        GroupedPairs(ws, i, current, next, k, l);
        assert (k, l) in pairs <==> exists api: int :: api in current && k in current[api] && l in next[api];
        MatchedOneMore(ws, i, k, l);
      }
      comp := comp + pairs;
    }
  }

  // ---------- Candidates ----------

  /** Two keys may follow each other: some workspaces match them, or the first is taken for the root. */
  ghost predicate Follows(ws: seq<Pipeline>, k: Key, l: Key)
    requires ws != []
  {
    Matched(ws, k, l) || k.componentType == ROOT_TYPE
  }

  ghost predicate FollowsAt(ws: seq<Pipeline>, p: Pipeline, i: nat)
    requires ws != [] && i + 1 < |p|
  {
    Follows(ws, p[i], p[i + 1])
  }

  /** The keys of a candidate: one key of each stage, each able to follow the one before. */
  ghost predicate CandidateKeys(ws: seq<Pipeline>, n: nat, p: Pipeline)
    requires ws != []
  {
    && |p| == n
    && (forall i: nat :: i < n ==> AtStage(ws, i, p[i]))
    && (forall i: nat :: i + 1 < n ==> FollowsAt(ws, p, i))
  }

  /** A node counts as trained if it is a dataset, or lies on the pipeline of a trained workspace. */
  ghost predicate TrainedPrefix(trained: seq<Pipeline>, q: Pipeline)
    requires q != []
  {
    q[|q| - 1].componentType == DATASET || exists w :: w in trained && q <= w
  }

  ghost predicate EntryAt(trained: seq<Pipeline>, p: Pipeline, i: nat, e: Entry)
    requires i < |p|
  {
    e.key == p[i] && (e.trained <==> TrainedPrefix(trained, p[..i + 1]))
  }

  ghost predicate CandidateOf(ws: seq<Pipeline>, trained: seq<Pipeline>, n: nat, es: Path, p: Pipeline)
    requires ws != []
  {
    CandidateKeys(ws, n, p) && |es| == n && forall i :: 0 <= i < n ==> EntryAt(trained, p, i, es[i])
  }

  ghost predicate Candidate(ws: seq<Pipeline>, trained: seq<Pipeline>, n: nat, es: Path)
    requires ws != []
  {
    exists p :: CandidateOf(ws, trained, n, es, p)
  }

  /** The stages and the compatibility of a set of workspaces. */
  ghost predicate Describes(ws: seq<Pipeline>, n: nat, stages: Stages, comp: Compatibility)
  {
    && ws != [] && n == |stages| && Collects(ws, stages)
    && forall k: Key, l: Key :: (k, l) in comp <==> Matched(ws, k, l)
  }

  lemma {:induction false} StageCount(ws: seq<Pipeline>, stages: Stages)
    requires Collects(ws, stages)
    ensures |stages| == MaxLength(ws)
  {
  }

  lemma {:induction false} Described(ws: seq<Pipeline>, n: nat, stages: Stages, comp: Compatibility)
    requires ws != [] && n == |stages| && Collects(ws, stages)
    requires forall k: Key, l: Key :: (k, l) in comp <==> Matched(ws, k, l)
    ensures Describes(ws, n, stages, comp) && n == MaxLength(ws)
  {
  }

  lemma {:induction false} LongestIsThere(ws: seq<Pipeline>)
    requires ws != []
    ensures exists w :: w in ws && |w| == MaxLength(ws)
  {
    var before, w := ws[..|ws| - 1], ws[|ws| - 1];
    assert w in ws;
    if |w| < MaxLength(before) {
      LongestIsThere(before);
      var v :| v in before && |v| == MaxLength(before);
      assert v in ws;
    }
  }

  lemma {:induction false} StagesAreProper(ws: seq<Pipeline>, n: nat, stages: Stages, comp: Compatibility)
    requires Describes(ws, n, stages, comp)
    ensures Proper(stages)
    ensures forall w :: w in ws ==> Fits(stages, w)
  {
    forall w | w in ws
      ensures Fits(stages, w)
    {
      assert forall i :: 0 <= i < |w| ==> AtStage(ws, i, w[i]);
    }
    LongestIsThere(ws);
    var longest :| longest in ws && |longest| == n;
    assert Fits(stages, longest);
  }

  predicate LinkedAt(comp: Compatibility, p: Pipeline, i: nat)
    requires i + 1 < |p|
  {
    Connected(comp, p[i], p[i + 1])
  }

  lemma {:induction false} ChainOfPairs(comp: Compatibility, key: Key, p: Pipeline)
    ensures Chain(comp, key, p) <==>
      (p != [] ==> Connected(comp, key, p[0])) && forall i: nat :: i + 1 < |p| ==> LinkedAt(comp, p, i)
    decreases |p|
  {
    if p == [] {
    } else {
      var q := p[1..];
      ChainOfPairs(comp, p[0], q);
      forall i: nat | i + 1 < |q|
        ensures LinkedAt(comp, q, i) <==> LinkedAt(comp, p, i + 1)
      {
      }
      if Chain(comp, p[0], q) {
        forall i: nat | i + 1 < |p|
          ensures LinkedAt(comp, p, i)
        {
          assert i > 0 ==> LinkedAt(comp, q, i - 1);
        }
      }
      if p != [] && |p| > 1 {
        assert LinkedAt(comp, p, 0) <==> Connected(comp, p[0], q[0]);
      }
    }
  }

  lemma {:induction false} KeysOfChain(ws: seq<Pipeline>, n: nat, stages: Stages, comp: Compatibility, p: Pipeline)
    requires Describes(ws, n, stages, comp)
    ensures InStages(stages, p) && Chain(comp, ROOT_KEY, p) <==> CandidateKeys(ws, n, p)
  {
    hide AtStage, Matched;
    ChainOfPairs(comp, ROOT_KEY, p);
    if |p| == n {
      forall i: nat | i + 1 < n
        ensures LinkedAt(comp, p, i) <==> FollowsAt(ws, p, i)
      {
      }
      forall i: nat | i < n
        ensures p[i] in stages[i] <==> AtStage(ws, i, p[i])
      {
      }
    }
  }

  /** The tree that the second search runs on. */
  function FinalTree(comp: Compatibility, stages: Stages, trained: seq<Pipeline>): Node
  {
    MarkedAll(Pruned(comp, Grown(ROOT_KEY, stages).(trained := true)), trained)
  }

  lemma {:induction false} FinalTreeIs(comp: Compatibility, stages: Stages, trained: seq<Pipeline>)
    ensures FinalTree(comp, stages, trained)
         == MarkedAll(Pruned(comp, Grown(ROOT_KEY, stages).(trained := true)), trained)
  {
  }

  lemma {:induction false} SameChildren(n: Node)
    ensures n.(trained := true).children == n.children
  {
  }

  lemma {:induction false} FinalFlag(comp: Compatibility, stages: Stages, trained: seq<Pipeline>, q: Pipeline)
    requires Proper(stages) && (forall w :: w in trained ==> Fits(stages, w))
    requires q != [] && |q| <= |stages| && forall i :: 0 <= i < |q| ==> q[i] in stages[i]
    ensures FlagAt(FinalTree(comp, stages, trained), q) <==> TrainedPrefix(trained, q)
  {
    hide FlagAt, Pruned, Grown, MarkedAll;
    var t := Grown(ROOT_KEY, stages);
    GrownIsProduct(ROOT_KEY, stages);
    SameChildren(t);
    SameProduct(t, t.(trained := true), stages);
    PrunedIsProduct(comp, t.(trained := true), stages);
    FlagOfMarkedAll(Pruned(comp, t.(trained := true)), trained, stages, q);
    FlagOfPruned(comp, t.(trained := true), q);
    SameFlags(t, t.(trained := true), q);
    FlagOfGrown(ROOT_KEY, stages, q);
  }

  lemma {:induction false} SameSound(comp: Compatibility, n: Node, m: Node)
    requires Sound(comp, n) && m.children == n.children && m.key == n.key
    ensures Sound(comp, m)
  {
  }

  lemma {:induction false} FinalIsProduct(comp: Compatibility, stages: Stages, trained: seq<Pipeline>)
    requires Proper(stages)
    ensures Product(FinalTree(comp, stages, trained), stages) && FinalTree(comp, stages, trained).key == ROOT_KEY
    ensures Sound(comp, FinalTree(comp, stages, trained))
  {
    hide Product, Sound;
    var t := Grown(ROOT_KEY, stages);
    GrownIsProduct(ROOT_KEY, stages);
    GrownIsSound(comp, ROOT_KEY, stages);
    SameProduct(t, t.(trained := true), stages);
    SameSound(comp, t, t.(trained := true));
    PrunedIsProduct(comp, t.(trained := true), stages);
    PrunedIsSound(comp, t.(trained := true));
    MarkedAllIsProduct(Pruned(comp, t.(trained := true)), trained, stages);
    MarkedAllIsSound(comp, Pruned(comp, t.(trained := true)), trained);
  }

  lemma {:induction false} EntriesAlong(comp: Compatibility, stages: Stages, trained: seq<Pipeline>, es: Path,
                                        p: Pipeline)
    requires Proper(stages) && (forall w :: w in trained ==> Fits(stages, w)) && InStages(stages, p)
    ensures es == Along(FinalTree(comp, stages, trained), p)
       <==> |es| == |p| && forall i :: 0 <= i < |p| ==> EntryAt(trained, p, i, es[i])
  {
    hide FinalTree, FlagAt, TrainedPrefix;
    var t := FinalTree(comp, stages, trained);
    forall i | 0 <= i < |p|
      ensures EntryAt(trained, p, i, Along(t, p)[i])
    {
      FinalFlag(comp, stages, trained, p[..i + 1]);
    }
  }

  lemma {:induction false} CandidateLength(ws: seq<Pipeline>, n: nat, p: Pipeline)
    requires ws != []
    ensures CandidateKeys(ws, n, p) ==> |p| == n
  {
  }

  lemma {:induction false} FoundIsCandidate(ws: seq<Pipeline>, trained: seq<Pipeline>, n: nat, stages: Stages,
                                            comp: Compatibility, es: Path, p: Pipeline)
    requires ws != [] && Describes(ws, n, stages, comp) && forall w :: w in trained ==> w in ws
    ensures FoundBy(comp, FinalTree(comp, stages, trained), stages, [], es, p) <==> CandidateOf(ws, trained, n, es, p)
  {
    hide FinalTree, FlagAt, TrainedPrefix, Chain, CandidateKeys, Describes, Product, Sound, InStages, Along, EntryAt;
    var t := FinalTree(comp, stages, trained);
    StagesAreProper(ws, n, stages, comp);
    FinalIsProduct(comp, stages, trained);
    KeysOfChain(ws, n, stages, comp, p);
    CandidateLength(ws, n, p);
    assert [] + Along(t, p) == Along(t, p);
    if CandidateKeys(ws, n, p) {
      EntriesAlong(comp, stages, trained, es, p);
    }
  }

  /** The second search records exactly the candidates, each once. */
  lemma {:induction false} WalkIsCandidates(ws: seq<Pipeline>, trained: seq<Pipeline>, n: nat, stages: Stages,
                                            comp: Compatibility)
    requires ws != [] && Describes(ws, n, stages, comp) && forall w :: w in trained ==> w in ws
    ensures var found := Walk(comp, FinalTree(comp, stages, trained), []);
      NoDuplicates(found) && forall es :: es in found <==> Candidate(ws, trained, n, es)
  {
    hide Describes, FinalTree;
    var t := FinalTree(comp, stages, trained);
    StagesAreProper(ws, n, stages, comp);
    FinalIsProduct(comp, stages, trained);
    WalkOnce(comp, t, stages, []);
    forall es
      ensures es in Walk(comp, t, []) <==> Candidate(ws, trained, n, es)
    {
      WalkFinds(comp, t, stages, [], es);
      forall p
        ensures FoundBy(comp, t, stages, [], es, p) <==> CandidateOf(ws, trained, n, es, p)
      {
        FoundIsCandidate(ws, trained, n, stages, comp, es, p);
      }
    }
  }

  /** A workspace's own pipeline survives exactly if it is one of the longest, and what follows on it behind the
      stages of the first workspace follows somewhere before them too. */
  lemma {:induction false} OwnPipelineSurvives(ws: seq<Pipeline>, w: Pipeline)
    requires NoShorter(ws) && w in ws
    ensures CandidateKeys(ws, MaxLength(ws), w)
       <==> |w| == MaxLength(ws) && forall i: nat :: Pairs(ws) <= i && i + 1 < |w| ==> FollowsAt(ws, w, i)
  {
    if |w| == MaxLength(ws) {
      forall i: nat | i < |w|
        ensures AtStage(ws, i, w[i])
      {
      }
      forall i: nat | i < Pairs(ws)
        ensures FollowsAt(ws, w, i)
      {
        assert MatchedAt(ws, i, w, w, w[i], w[i + 1]);
      }
    }
  }

  predicate SameLength(ws: seq<Pipeline>)
  {
    ws != [] && forall w :: w in ws ==> |w| == |ws[0]|
  }

  /** So with pipelines of equal length, every workspace's own pipeline survives. */
  lemma {:induction false} EqualPipelinesSurvive(ws: seq<Pipeline>, w: Pipeline)
    requires SameLength(ws) && w in ws
    ensures |w| == MaxLength(ws) && CandidateKeys(ws, |w|, w)
  {
    LongestIsThere(ws);
    OwnPipelineSurvives(ws, w);
  }

  /** The pipelines of the workspaces that have outputs. */
  function TrainedOf(ws: seq<Pipeline>, outputs: seq<bool>): (r: seq<Pipeline>)
    requires |ws| == |outputs|
    ensures forall w :: w in r <==> exists x :: 0 <= x < |ws| && outputs[x] && ws[x] == w
  {
    if ws == [] then [] else
    var m := |ws| - 1;
    var r := TrainedOf(ws[..m], outputs[..m]);
    if outputs[m] then r + [ws[m]] else r
  }

  // ---------- The candidates in terms of the workspaces alone ----------

  /** `l` may follow `k`: behind some stage of the first workspace, workspaces with one API version there match them. */
  lemma {:induction false} FollowsSpelledOut(ws: seq<Pipeline>, k: Key, l: Key)
    requires ws != []
    ensures Follows(ws, k, l)
       <==> k.componentType == "TrialTree"
            || exists i: int, v: Pipeline, w: Pipeline ::
                 && 0 <= i && i + 1 < |ws[0]| && v in ws && w in ws && i + 1 < |v| && i + 1 < |w|
                 && v[i] == k && w[i + 1] == l
                 && v[i].componentVersion.apiVersion == w[i].componentVersion.apiVersion
  {
    if Matched(ws, k, l) {
      var i: nat, v: Pipeline, w: Pipeline :| i < Pairs(ws) && MatchedAt(ws, i, v, w, k, l);
      assert i + 1 < |ws[0]| && v in ws && w in ws;
    }
    if i: int, v: Pipeline, w: Pipeline :|
      && 0 <= i && i + 1 < |ws[0]| && v in ws && w in ws && i + 1 < |v| && i + 1 < |w|
      && v[i] == k && w[i + 1] == l && v[i].componentVersion.apiVersion == w[i].componentVersion.apiVersion
    {
      assert i < Pairs(ws) && MatchedAt(ws, i, v, w, k, l);
    }
  }

  /** A node is trained if it is a dataset, or a trained workspace begins with the keys up to it. */
  lemma {:induction false} TrainedSpelledOut(ws: seq<Pipeline>, outputs: seq<bool>, q: Pipeline)
    requires |ws| == |outputs| && q != []
    ensures TrainedPrefix(TrainedOf(ws, outputs), q)
       <==> q[|q| - 1].componentType == "dataset" || exists x :: 0 <= x < |ws| && outputs[x] && q <= ws[x]
  {
    hide TrainedOf;
    var trained := TrainedOf(ws, outputs);
    if w :| w in trained && q <= w {
      var x :| 0 <= x < |ws| && outputs[x] && ws[x] == w;
      assert q <= ws[x];
    }
    if x :| 0 <= x < |ws| && outputs[x] && q <= ws[x] {
      assert ws[x] in trained;
    }
  }

  lemma {:induction false} LengthSpelledOut(ws: seq<Pipeline>, n: nat)
    requires ws != []
    ensures n == MaxLength(ws) <==> (exists w :: w in ws && |w| == n) && forall w :: w in ws ==> |w| <= n
  {
    LongestIsThere(ws);
  }

  function KeysOf(es: Path): (p: Pipeline)
    ensures |p| == |es| && forall i :: 0 <= i < |p| ==> p[i] == es[i].key
  {
    seq(|es|, i requires 0 <= i < |es| => es[i].key)
  }

  lemma {:induction false} BeginsWith(w: Pipeline, p: Pipeline, i: nat)
    requires i < |p|
    ensures p[..i + 1] <= w <==> i < |w| && forall j :: 0 <= j <= i ==> w[j] == p[j]
  {
    if p[..i + 1] <= w {
      assert forall j :: 0 <= j <= i ==> w[j] == p[..i + 1][j];
    }
  }

  lemma {:induction false} OnlyKeys(ws: seq<Pipeline>, trained: seq<Pipeline>, n: nat, es: Path)
    requires ws != []
    ensures Candidate(ws, trained, n, es) <==> CandidateOf(ws, trained, n, es, KeysOf(es))
  {
    hide CandidateKeys, TrainedPrefix;
    if p :| CandidateOf(ws, trained, n, es, p) {
      CandidateLength(ws, n, p);
      forall i | 0 <= i < n
        ensures p[i] == es[i].key
      {
        assert EntryAt(trained, p, i, es[i]);
      }
      assert p == KeysOf(es);
    }
  }

  /** A workspace has the key of this entry at its place. */
  ghost predicate InUse(ws: seq<Pipeline>, es: Path, i: nat)
    requires i < |es|
  {
    exists w :: w in ws && i < |w| && w[i] == es[i].key
  }

  /** This entry is a dataset, or a workspace with outputs begins with the keys up to it. */
  ghost predicate RunBefore(ws: seq<Pipeline>, outputs: seq<bool>, es: Path, i: nat)
    requires |outputs| == |ws| && i < |es|
  {
    || es[i].key.componentType == "dataset"
    || exists x :: 0 <= x < |ws| && outputs[x] && i < |ws[x]| && forall j :: 0 <= j <= i ==> ws[x][j] == es[j].key
  }

  lemma {:induction false} FlagSpelledOut(ws: seq<Pipeline>, outputs: seq<bool>, es: Path, i: nat)
    requires |outputs| == |ws| && i < |es|
    ensures TrainedPrefix(TrainedOf(ws, outputs), KeysOf(es)[..i + 1]) <==> RunBefore(ws, outputs, es, i)
  {
    hide TrainedPrefix, TrainedOf;
    var p := KeysOf(es);
    TrainedSpelledOut(ws, outputs, p[..i + 1]);
    forall x | 0 <= x < |ws|
      ensures p[..i + 1] <= ws[x] <==> i < |ws[x]| && forall j :: 0 <= j <= i ==> ws[x][j] == es[j].key
    {
      BeginsWith(ws[x], p, i);
    }
  }

  /** A candidate has, up to the length of the longest workspace, keys in use that follow each other, all flagged
      rightly. */
  lemma {:induction false} CandidateSpelledOut(ws: seq<Pipeline>, outputs: seq<bool>, es: Path)
    requires ws != [] && |outputs| == |ws|
    ensures Candidate(ws, TrainedOf(ws, outputs), MaxLength(ws), es)
       <==> && |es| == MaxLength(ws)
            && (forall i: nat :: i < |es| ==> InUse(ws, es, i))
            && (forall i: nat :: i + 1 < |es| ==> Follows(ws, es[i].key, es[i + 1].key))
            && (forall i: nat :: i < |es| ==> (es[i].trained <==> RunBefore(ws, outputs, es, i)))
  {
    hide TrainedPrefix, TrainedOf, MaxLength, Follows, RunBefore;
    var n, trained := MaxLength(ws), TrainedOf(ws, outputs);
    var p := KeysOf(es);
    OnlyKeys(ws, trained, n, es);
    if |es| == n {
      forall i: nat | i < n
        ensures EntryAt(trained, p, i, es[i]) <==> (es[i].trained <==> RunBefore(ws, outputs, es, i))
      {
        FlagSpelledOut(ws, outputs, es, i);
      }
      forall i: nat | i < n
        ensures AtStage(ws, i, p[i]) <==> InUse(ws, es, i)
      {
      }
      hide EntryAt, AtStage, InUse;
      forall i: nat | i + 1 < n
        ensures FollowsAt(ws, p, i) <==> Follows(ws, es[i].key, es[i + 1].key)
      {
      }
    }
  }

  lemma {:induction false} StepOver(comp: Compatibility, n: Node, i: nat, before: seq<Path>, after: seq<Path>,
                                    path: Path)
    requires i < |n.children|
    requires var c := n.children[i];
      after == before + if Connected(comp, n.key, c.key) then Walk(comp, c, path + [EntryOf(c)]) else []
    ensures after + WalkFrom(comp, n, i + 1, path) == before + WalkFrom(comp, n, i, path)
  {
    var c := n.children[i];
    var here := if Connected(comp, n.key, c.key) then Walk(comp, c, path + [EntryOf(c)]) else [];
    assert WalkFrom(comp, n, i, path) == here + WalkFrom(comp, n, i + 1, path);
    hide Walk, WalkFrom;
    ConcatAssociative(before, here, WalkFrom(comp, n, i + 1, path));
  }

  lemma {:induction false} TrainOver(n: Node, i: nat, before: seq<Path>, after: seq<Path>, path: Path)
    requires i < |n.children|
    requires var c := n.children[i]; after == before + if !c.pruned then TrainWalk(c, path + [EntryOf(c)]) else []
    ensures after + TrainWalkFrom(n, i + 1, path) == before + TrainWalkFrom(n, i, path)
  {
    var c := n.children[i];
    var here := if !c.pruned then TrainWalk(c, path + [EntryOf(c)]) else [];
    assert TrainWalkFrom(n, i, path) == here + TrainWalkFrom(n, i + 1, path);
    hide TrainWalk, TrainWalkFrom;
    ConcatAssociative(before, here, TrainWalkFrom(n, i + 1, path));
  }

  lemma {:induction false} NothingMarked(n: Node)
    ensures MarkedAll(n, TrainedOf([], [])) == n
  {
  }

  lemma {:induction false} MarkedNext(n: Node, ws: seq<Pipeline>, outputs: seq<bool>, x: nat)
    requires |ws| == |outputs| && x < |ws|
    ensures MarkedAll(n, TrainedOf(ws[..x + 1], outputs[..x + 1]))
         == var t := MarkedAll(n, TrainedOf(ws[..x], outputs[..x])); if outputs[x] then Marked(t, ws[x]) else t
  {
    assert ws[..x + 1][..x] == ws[..x] && outputs[..x + 1][..x] == outputs[..x];
    var r := TrainedOf(ws[..x], outputs[..x]);
    assert (r + [ws[x]])[..|r|] == r;
  }

  lemma {:induction false} PrunedChild(comp: Compatibility, n: Node, i: nat)
    requires i < |n.children|
    ensures |Pruned(comp, n).children| == |n.children|
    ensures Pruned(comp, n).children[..i + 1]
         == Pruned(comp, n).children[..i]
            + [if Connected(comp, n.key, n.children[i].key) then Pruned(comp, n.children[i])
               else n.children[i].(pruned := true)]
  {
  }

  lemma {:induction false} PrunedOf(comp: Compatibility, n: Node)
    ensures Pruned(comp, n) == n.(children := Pruned(comp, n).children[..|n.children|])
  {
  }

  lemma {:induction false} WalkOf(comp: Compatibility, n: Node, path: Path)
    ensures Walk(comp, n, path) == if n.children == [] then [path] else WalkFrom(comp, n, 0, path)
    ensures WalkFrom(comp, n, |n.children|, path) == []
  {
  }

  /** The tree with the nodes on the pipelines of trained workspaces marked. */
  method MarkTrained(n: Node, ws: seq<Pipeline>, outputs: seq<bool>) returns (r: Node)
    requires |outputs| == |ws|
    ensures r == MarkedAll(n, TrainedOf(ws, outputs))
  {
    hide MarkedAll, Marked, TrainedOf;
    r := n;
    NothingMarked(n);
    assert ws[..0] == [] && outputs[..0] == [];
    for x := 0 to |ws|
      invariant r == MarkedAll(n, TrainedOf(ws[..x], outputs[..x]))
    {
      MarkedNext(n, ws, outputs, x);
      if outputs[x] {
        r := Marked(r, ws[x]);
      }
    }
    assert ws[..|ws|] == ws && outputs[..|ws|] == outputs;
  }

  /** What the second search and training find on the marked tree. */
  lemma {:induction false} SearchedAndTrained(ws: seq<Pipeline>, outputs: seq<bool>, n: nat, stages: Stages,
                                              comp: Compatibility, root: Node)
    requires ws != [] && |outputs| == |ws| && n == |stages| && Collects(ws, stages)
    requires forall k: Key, l: Key :: (k, l) in comp <==> Matched(ws, k, l)
    requires root == MarkedAll(Pruned(comp, Grown(ROOT_KEY, stages).(trained := true)), TrainedOf(ws, outputs))
    ensures var found := Walk(comp, root, []);
      && NoDuplicates(found) && TrainWalk(Pruned(comp, root), []) == found
      && forall es :: es in found <==> Candidate(ws, TrainedOf(ws, outputs), MaxLength(ws), es)
  {
    hide NoDuplicates, Grown, Pruned, Walk, MarkedAll, Sound, Candidate, Product, TrainWalk;
    hide AtStage, Matched, TrainedOf, Proper, InStages, FinalTree, Describes, Collects;
    var trained := TrainedOf(ws, outputs);
    FinalTreeIs(comp, stages, trained);
    Described(ws, n, stages, comp);
    WalkIsCandidates(ws, trained, n, stages, comp);
    StagesAreProper(ws, n, stages, comp);
    FinalIsProduct(comp, stages, trained);
    TrainingVisitsCandidates(comp, root, []);
  }

  class TrialTree {
    const comp: Compatibility
    var root: Node
    var walkingNodeList: Path
    var allWalkedNodeList: seq<Path>

    /** Workspaces of which none is shorter than the first, and some has a component; `outputs` says which of them have
        been trained. */
    constructor (ws: seq<Pipeline>, outputs: seq<bool>)
      requires NoShorter(ws) && MaxLength(ws) > 0 && |outputs| == |ws|
      ensures walkingNodeList == [] && NoDuplicates(allWalkedNodeList)
      ensures forall es :: es in allWalkedNodeList <==> Candidate(ws, TrainedOf(ws, outputs), MaxLength(ws), es)
      ensures TrainWalk(root, []) == allWalkedNodeList
    {
      hide NoDuplicates, Grown, Pruned, Walk, MarkedAll, Marked, Sound, Candidate, Product, TrainWalk;
      hide AtStage, Matched, TrainedOf, Proper, InStages, FinalTree, Describes, Collects;
      var stages, n := StageDict(ws);
      StageCount(ws, stages);
      var dict := CompatibilityDict(ws);
      comp := dict;
      var tree := AddNodes(stages, n);
      root := tree;
      walkingNodeList, allWalkedNodeList := [], [];
      new;
      var pruned := DfsPrune(root);
      root := pruned;
      var marked := MarkTrained(pruned, ws, outputs);
      root := marked;
      allWalkedNodeList := [];
      SearchedAndTrained(ws, outputs, n, stages, comp, root);
      assert [] + Walk(comp, root, []) == Walk(comp, root, []);
      pruned := DfsPrune(root);
      root := pruned;
    }

    /** Records all paths below `n`, and marks the children turned back at. */
    method DfsPrune(n: Node) returns (r: Node)
      modifies this`walkingNodeList, this`allWalkedNodeList
      ensures r == Pruned(comp, n)
      ensures walkingNodeList == old(walkingNodeList)
      ensures allWalkedNodeList == old(allWalkedNodeList) + Walk(comp, n, old(walkingNodeList))
      decreases n
    {
      hide Walk, WalkFrom, Pruned;
      WalkOf(comp, n, walkingNodeList);
      var kids: seq<Node> := [];
      PrunedOf(comp, n);
      if n.children != [] {
        for i := 0 to |n.children|
          invariant walkingNodeList == old(walkingNodeList)
          invariant |kids| == i && kids == Pruned(comp, n).children[..i]
          invariant allWalkedNodeList + WalkFrom(comp, n, i, walkingNodeList)
                 == old(allWalkedNodeList) + WalkFrom(comp, n, 0, old(walkingNodeList))
        {
          var child := n.children[i];
          ghost var before := allWalkedNodeList;
          PrunedChild(comp, n, i);
          if (n.key, child.key) !in comp && n.key.componentType != ROOT_TYPE {
            kids := kids + [child.(pruned := true)];
          } else {
            walkingNodeList := walkingNodeList + [EntryOf(child)];
            var kid := DfsPrune(child);
            walkingNodeList := walkingNodeList[..|walkingNodeList| - 1];
            kids := kids + [kid];
          }
          StepOver(comp, n, i, before, allWalkedNodeList, walkingNodeList);
        }
      } else {
        allWalkedNodeList := allWalkedNodeList + [walkingNodeList];
      }
      r := n.(children := kids);
    }

    /** The paths that training visits. */
    method DfsTrain(n: Node)
      modifies this`walkingNodeList, this`allWalkedNodeList
      ensures walkingNodeList == old(walkingNodeList)
      ensures allWalkedNodeList == old(allWalkedNodeList) + TrainWalk(n, old(walkingNodeList))
      decreases n
    {
      if n.children != [] {
        for i := 0 to |n.children|
          invariant walkingNodeList == old(walkingNodeList)
          invariant allWalkedNodeList + TrainWalkFrom(n, i, walkingNodeList)
                 == old(allWalkedNodeList) + TrainWalkFrom(n, 0, old(walkingNodeList))
        {
          var child := n.children[i];
          ghost var before := allWalkedNodeList;
          walkingNodeList := walkingNodeList + [EntryOf(child)];
          if !child.pruned {
            DfsTrain(child);
          }
          walkingNodeList := walkingNodeList[..|walkingNodeList| - 1];
          TrainOver(n, i, before, allWalkedNodeList, walkingNodeList);
        }
      } else {
        allWalkedNodeList := allWalkedNodeList + [walkingNodeList];
      }
    }
  }

  // ---------- Committing a workspace ----------

  /** The comparison of a candidate with a pipeline stops at the end of the shorter one. */
  predicate SameKeys(es: Path, p: Pipeline)
  {
    forall i :: 0 <= i < |es| && i < |p| ==> es[i].key == p[i]
  }

  predicate NoneBefore(lists: seq<Path>, x: nat, p: Pipeline)
    requires x <= |lists|
  {
    forall y :: 0 <= y < x ==> !SameKeys(lists[y], p)
  }

  /** The first list whose keys are those of the pipeline. */
  method FirstEqual(lists: seq<Path>, p: Pipeline) returns (r: Option<Path>)
    ensures match r
      case Some(es) => exists x: nat :: x < |lists| && es == lists[x] && SameKeys(es, p) && NoneBefore(lists, x, p)
      case None => NoneBefore(lists, |lists|, p)
  {
    for x := 0 to |lists|
      invariant NoneBefore(lists, x, p)
    {
      if SameKeys(lists[x], p) {
        return Some(lists[x]);
      }
    }
    return None;
  }

  ghost function Own(trained: seq<Pipeline>, w: Pipeline): (es: Path)
    ensures |es| == |w| && forall i :: 0 <= i < |w| ==> EntryAt(trained, w, i, es[i])
  {
    seq(|w|, i requires 0 <= i < |w| => Entry(w[i], TrainedPrefix(trained, w[..i + 1])))
  }

  lemma {:induction false} OwnCandidate(ws: seq<Pipeline>, trained: seq<Pipeline>, w: Pipeline, r: Option<Path>)
    requires SameLength(ws) && w in ws
    requires r.Some? ==> Candidate(ws, trained, MaxLength(ws), r.value) && SameKeys(r.value, w)
    requires r.None? ==> forall es :: Candidate(ws, trained, MaxLength(ws), es) ==> !SameKeys(es, w)
    ensures r.Some? && CandidateOf(ws, trained, |w|, r.value, w)
  {
    hide CandidateKeys, TrainedPrefix;
    EqualPipelinesSurvive(ws, w);
    var own := Own(trained, w);
    assert CandidateOf(ws, trained, |w|, own, w);
    assert Candidate(ws, trained, |w|, own) && SameKeys(own, w);
    var p :| CandidateOf(ws, trained, |w|, r.value, p);
    CandidateLength(ws, |w|, p);
    assert p == w;
  }

  /** The lookup finds a candidate if there is one that agrees with the pipeline; for pipelines of equal length
      there is, and it is the workspace's own, with the trained prefixes marked. */
  method CommittedNodes(ws: seq<Pipeline>, outputs: seq<bool>, w: Pipeline) returns (r: Option<Path>)
    requires NoShorter(ws) && MaxLength(ws) > 0 && |outputs| == |ws| && w in ws
    ensures r.Some? ==> Candidate(ws, TrainedOf(ws, outputs), MaxLength(ws), r.value) && SameKeys(r.value, w)
    ensures r.None? ==> forall es :: Candidate(ws, TrainedOf(ws, outputs), MaxLength(ws), es) ==> !SameKeys(es, w)
    ensures SameLength(ws) ==> r.Some? && CandidateOf(ws, TrainedOf(ws, outputs), |w|, r.value, w)
  {
    hide NoDuplicates, CandidateKeys, TrainedPrefix;
    var tree := new TrialTree(ws, outputs);
    r := FirstEqual(tree.allWalkedNodeList, w);
    if SameLength(ws) {
      OwnCandidate(ws, TrainedOf(ws, outputs), w, r);
    }
  }
}
