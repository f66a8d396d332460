/** The searches of the trial tree find exactly the compatible pipelines, with the trained prefixes marked. */
module TrialSearch {
  import opened Keys
  import opened Sequences
  import opened TrialProduct

  /** A tree with one child for each key of the next stage, whatever its flags. */
  predicate Product(n: Node, stages: Stages)
    decreases |stages|
  {
    if stages == [] then n.children == []
    else
      && |n.children| == |stages[0]| > 0
      && NoDuplicates(stages[0])
      && forall i :: 0 <= i < |n.children| ==> n.children[i].key == stages[0][i] && Product(n.children[i], stages[1..])
  }

  predicate Proper(stages: Stages)
  {
    forall i :: 0 <= i < |stages| ==> stages[i] != [] && NoDuplicates(stages[i])
  }

  lemma {:induction false} GrownIsProduct(key: Key, stages: Stages)
    requires Proper(stages)
    ensures Product(Grown(key, stages), stages)
    decreases |stages|
  {
    if stages == [] {
    } else {
      forall i | 0 <= i < |stages[0]|
        ensures Product(Grown(stages[0][i], stages[1..]), stages[1..])
      {
        GrownIsProduct(stages[0][i], stages[1..]);
      }
    }
  }

  lemma {:induction false} SameProduct(n: Node, m: Node, stages: Stages)
    requires Product(n, stages) && m.children == n.children
    ensures Product(m, stages)
  {
  }

  lemma {:induction false} PrunedIsProduct(comp: Compatibility, n: Node, stages: Stages)
    requires Product(n, stages)
    ensures Product(Pruned(comp, n), stages)
    decreases |stages|
  {
    if stages == [] {
    } else {
      var r := Pruned(comp, n);
      forall i | 0 <= i < |n.children|
        ensures r.children[i].key == stages[0][i] && Product(r.children[i], stages[1..])
      {
        var c := n.children[i];
        PrunedIsProduct(comp, c, stages[1..]);
        SameProduct(c, c.(pruned := true), stages[1..]);
      }
    }
  }

  lemma {:induction false} MarkedIsProduct(n: Node, p: Pipeline, stages: Stages)
    requires Product(n, stages)
    ensures Product(Marked(n, p), stages)
    decreases |p|
  {
    if p == [] {
    } else {
      var i := ChildIndex(n, p[0]);
      if i == |n.children| {
        MarkedIsProduct(n, p[1..], stages);
      } else {
        var c := n.children[i];
        SameProduct(c, c.(trained := true), stages[1..]);
        MarkedIsProduct(c.(trained := true), p[1..], stages[1..]);
      }
    }
  }

  // ---------- Which key sequences the search finds ----------

  predicate Chain(comp: Compatibility, key: Key, p: Pipeline)
    decreases |p|
  {
    p == [] || (Connected(comp, key, p[0]) && Chain(comp, p[0], p[1..]))
  }

  /** The keys of `p` are keys of the first stages. */
  predicate Fits(stages: Stages, p: Pipeline)
  {
    |p| <= |stages| && forall i :: 0 <= i < |p| ==> p[i] in stages[i]
  }

  predicate InStages(stages: Stages, p: Pipeline)
  {
    |p| == |stages| && forall i :: 0 <= i < |p| ==> p[i] in stages[i]
  }

  /** The flag of the node that the keys of `p` lead to. */
  function FlagAt(n: Node, p: Pipeline): bool
    requires p != []
    decreases |p|
  {
    var i := ChildIndex(n, p[0]);
    if i == |n.children| then false
    else if |p| == 1 then n.children[i].trained
    else FlagAt(n.children[i], p[1..])
  }

  /** The entries along the keys of `p`, as found in the tree. */
  function Along(n: Node, p: Pipeline): (es: Path)
    ensures |es| == |p|
  {
    seq(|p|, i requires 0 <= i < |p| => Entry(p[i], FlagAt(n, p[..i + 1])))
  }

  lemma {:induction false} ChildOfProduct(n: Node, stages: Stages, i: nat)
    requires stages != [] && Product(n, stages) && i < |n.children|
    ensures ChildIndex(n, stages[0][i]) == i && n.children[i].key == stages[0][i] && Product(n.children[i], stages[1..])
  {
  }

  lemma {:induction false} AlongChild(n: Node, stages: Stages, i: nat, q: Pipeline)
    requires stages != [] && Product(n, stages) && i < |n.children|
    ensures Along(n, [stages[0][i]] + q) == [EntryOf(n.children[i])] + Along(n.children[i], q)
  {
    var p := [stages[0][i]] + q;
    ChildOfProduct(n, stages, i);
    forall j | 0 <= j < |p|
      ensures Along(n, p)[j] == ([EntryOf(n.children[i])] + Along(n.children[i], q))[j]
    {
      if j == 0 {
        assert p[..1] == [stages[0][i]];
      } else {
        assert p[..j + 1][1..] == q[..j];
      }
    }
  }

  predicate FoundBy(comp: Compatibility, n: Node, stages: Stages, path: Path, es: Path, p: Pipeline)
  {
    InStages(stages, p) && Chain(comp, n.key, p) && es == path + Along(n, p)
  }

  /** A path is recorded exactly if it leads along a chain of connected keys, one for each stage. */
  ghost predicate Found(comp: Compatibility, n: Node, stages: Stages, path: Path, es: Path)
  {
    exists p :: FoundBy(comp, n, stages, path, es, p)
  }

  lemma {:induction false} WalkFinds(comp: Compatibility, n: Node, stages: Stages, path: Path, es: Path)
    requires Product(n, stages)
    ensures es in Walk(comp, n, path) <==> Found(comp, n, stages, path, es)
    decreases |stages|, 1, 0
  {
    if stages == [] {
      if es == path {
        assert FoundBy(comp, n, stages, path, es, []);
      }
    } else {
      WalkFromFinds(comp, n, stages, 0, path, es);
    }
  }

  lemma {:induction false} IntoChild(comp: Compatibility, n: Node, stages: Stages, i: nat, path: Path, es: Path,
                                     q: Pipeline)
    requires stages != [] && Product(n, stages) && i < |n.children|
    ensures FoundBy(comp, n, stages, path, es, [stages[0][i]] + q)
       <==> Connected(comp, n.key, n.children[i].key)
            && FoundBy(comp, n.children[i], stages[1..], path + [EntryOf(n.children[i])], es, q)
  {
    var c, p := n.children[i], [stages[0][i]] + q;
    AlongChild(n, stages, i, q);
    assert path + ([EntryOf(c)] + Along(c, q)) == (path + [EntryOf(c)]) + Along(c, q);
    assert p[1..] == q;
    assert InStages(stages, p) <==> InStages(stages[1..], q) by {
      if InStages(stages, p) {
        assert forall j :: 0 <= j < |q| ==> q[j] == p[j + 1];
      }
    }
  }

  lemma {:induction false} ThroughChild(comp: Compatibility, n: Node, stages: Stages, i: nat, path: Path, es: Path)
    requires stages != [] && Product(n, stages) && i < |n.children|
    ensures var c := n.children[i];
      (Connected(comp, n.key, c.key) && Found(comp, c, stages[1..], path + [EntryOf(c)], es))
      <==> exists p :: FoundBy(comp, n, stages, path, es, p) && p[0] == stages[0][i]
  {
    var c := n.children[i];
    if Connected(comp, n.key, c.key) && Found(comp, c, stages[1..], path + [EntryOf(c)], es) {
      var q :| FoundBy(comp, c, stages[1..], path + [EntryOf(c)], es, q);
      IntoChild(comp, n, stages, i, path, es, q);
      assert FoundBy(comp, n, stages, path, es, [stages[0][i]] + q);
    }
    if p :| FoundBy(comp, n, stages, path, es, p) && p[0] == stages[0][i] {
      assert p == [stages[0][i]] + p[1..];
      IntoChild(comp, n, stages, i, path, es, p[1..]);
      assert FoundBy(comp, c, stages[1..], path + [EntryOf(c)], es, p[1..]);
    }
  }

  lemma {:induction false} WalkFromFinds(comp: Compatibility, n: Node, stages: Stages, i: nat, path: Path, es: Path)
    requires stages != [] && Product(n, stages) && i <= |n.children|
    ensures es in WalkFrom(comp, n, i, path)
       <==> exists p :: FoundBy(comp, n, stages, path, es, p) && p[0] in stages[0][i..]
    decreases |stages|, 0, |n.children| - i
  {
    if i < |n.children| {
      var c := n.children[i];
      WalkFromFinds(comp, n, stages, i + 1, path, es);
      WalkFinds(comp, c, stages[1..], path + [EntryOf(c)], es);
      ThroughChild(comp, n, stages, i, path, es);
      assert stages[0][i..] == [stages[0][i]] + stages[0][i + 1..];
    }
  }

  // ---------- Each path once ----------

  lemma {:induction false} WalkExtends(comp: Compatibility, n: Node, stages: Stages, path: Path, es: Path)
    requires Product(n, stages) && es in Walk(comp, n, path)
    ensures path <= es
  {
    WalkFinds(comp, n, stages, path, es);
    var p :| FoundBy(comp, n, stages, path, es, p);
  }

  lemma {:induction false} WalkOnce(comp: Compatibility, n: Node, stages: Stages, path: Path)
    requires Product(n, stages)
    ensures NoDuplicates(Walk(comp, n, path))
    decreases |stages|, 1, 0
  {
    if stages != [] {
      WalkFromOnce(comp, n, stages, 0, path);
    }
  }

  lemma {:induction false} FirstKey(comp: Compatibility, n: Node, stages: Stages, i: nat, path: Path, es: Path)
    requires stages != [] && Product(n, stages) && i <= |n.children|
    requires es in WalkFrom(comp, n, i, path)
    ensures |es| > |path| && es[|path|].key in stages[0][i..]
  {
    WalkFromFinds(comp, n, stages, i, path, es);
    var p :| FoundBy(comp, n, stages, path, es, p) && p[0] in stages[0][i..];
    assert es[|path|] == Along(n, p)[0];
  }

  /** What is found below one child is not found below a later one. */
  lemma {:induction false} Apart(comp: Compatibility, n: Node, stages: Stages, i: nat, path: Path, es: Path)
    requires stages != [] && Product(n, stages) && i < |n.children|
    requires es in Walk(comp, n.children[i], path + [EntryOf(n.children[i])])
    ensures es !in WalkFrom(comp, n, i + 1, path)
  {
    var c := n.children[i];
    WalkExtends(comp, c, stages[1..], path + [EntryOf(c)], es);
    assert es[|path|] == EntryOf(c);
    if es in WalkFrom(comp, n, i + 1, path) {
      FirstKey(comp, n, stages, i + 1, path, es);
    }
  }

  lemma {:induction false} WalkFromOnce(comp: Compatibility, n: Node, stages: Stages, i: nat, path: Path)
    requires stages != [] && Product(n, stages) && i <= |n.children|
    ensures NoDuplicates(WalkFrom(comp, n, i, path))
    decreases |stages|, 0, |n.children| - i
  {
    if i < |n.children| {
      var c := n.children[i];
      WalkFromOnce(comp, n, stages, i + 1, path);
      if Connected(comp, n.key, c.key) {
        var here, rest := Walk(comp, c, path + [EntryOf(c)]), WalkFrom(comp, n, i + 1, path);
        WalkOnce(comp, c, stages[1..], path + [EntryOf(c)]);
        forall es | es in here
          ensures es !in rest
        {
          Apart(comp, n, stages, i, path, es);
        }
        ConcatNoDuplicates(here, rest);
      }
    }
  }

  // ---------- Which nodes are marked ----------

  lemma {:induction false} SameIndex(n: Node, m: Node, k: Key)
    requires |n.children| == |m.children|
        && forall i :: 0 <= i < |n.children| ==> n.children[i].key == m.children[i].key
    ensures ChildIndex(n, k) == ChildIndex(m, k)
  {
    hide ChildIndex;
  }

  lemma {:induction false} StagesTail(stages: Stages, p: Pipeline)
    requires Fits(stages, p) && p != []
    ensures Fits(stages[1..], p[1..])
  {
  }

  lemma {:induction false} PrefixTail(p: Pipeline, q: Pipeline)
    requires p != [] && q != [] && p[0] == q[0]
    ensures q <= p <==> q[1..] <= p[1..]
  {
    assert q == [q[0]] + q[1..] && p == [p[0]] + p[1..];
    if q <= p {
      assert p[..|q|] == q;
      assert p[1..][..|q| - 1] == q[1..];
    }
  }

  lemma {:induction false} SameFlags(n: Node, m: Node, q: Pipeline)
    requires n.children == m.children && q != []
    ensures FlagAt(n, q) == FlagAt(m, q)
  {
    SameIndex(n, m, q[0]);
  }

  lemma {:induction false} FirstStage(n: Node, p: Pipeline, stages: Stages)
    requires Product(n, stages) && Fits(stages, p) && p != []
    ensures stages != [] && ChildIndex(n, p[0]) < |n.children|
    ensures Product(n.children[ChildIndex(n, p[0])], stages[1..])
  {
    hide ChildIndex;
    assert p[0] in stages[0];
    var k: nat :| k < |stages[0]| && stages[0][k] == p[0];
    ChildOfProduct(n, stages, k);
  }

  /** One level of marking, as seen by a path. */
  lemma {:induction false} FlagBelowMarked(n: Node, p: Pipeline, q: Pipeline)
    requires p != [] && q != [] && ChildIndex(n, p[0]) < |n.children|
    ensures var c := n.children[ChildIndex(n, p[0])];
      FlagAt(Marked(n, p), q)
      == if q[0] != p[0] then FlagAt(n, q)
         else |q| == 1 || FlagAt(Marked(c.(trained := true), p[1..]), q[1..])
    ensures q[0] == p[0] && |q| > 1 ==> FlagAt(n, q) == FlagAt(n.children[ChildIndex(n, p[0])], q[1..])
  {
    hide ChildIndex;
    SameIndex(n, Marked(n, p), q[0]);
  }

  lemma {:induction false} FlagOfMarked(n: Node, p: Pipeline, stages: Stages, q: Pipeline)
    requires Product(n, stages) && Fits(stages, p) && q != []
    ensures FlagAt(Marked(n, p), q) <==> FlagAt(n, q) || q <= p
    decreases |p|
  {
    if p == [] {
    } else {
      hide ChildIndex, FlagAt, Product;
      FirstStage(n, p, stages);
      var k := ChildIndex(n, p[0]);
      StagesTail(stages, p);
      var c := n.children[k].(trained := true);
      SameProduct(n.children[k], c, stages[1..]);
      if q[0] == p[0] && |q| > 1 {
        FlagOfMarked(c, p[1..], stages[1..], q[1..]);
        SameFlags(n.children[k], c, q[1..]);
        PrefixTail(p, q);
      }
      FlagBelowMarked(n, p, q);
    }
  }

  lemma {:induction false} MarkedAllIsProduct(n: Node, ps: seq<Pipeline>, stages: Stages)
    requires Product(n, stages)
    ensures Product(MarkedAll(n, ps), stages)
  {
    if ps == [] {
    } else {
      MarkedAllIsProduct(n, ps[..|ps| - 1], stages);
      MarkedIsProduct(MarkedAll(n, ps[..|ps| - 1]), ps[|ps| - 1], stages);
    }
  }

  lemma {:induction false} FlagOfMarkedAll(n: Node, ps: seq<Pipeline>, stages: Stages, q: Pipeline)
    requires Product(n, stages) && q != [] && forall p :: p in ps ==> Fits(stages, p)
    ensures FlagAt(MarkedAll(n, ps), q) <==> FlagAt(n, q) || exists p :: p in ps && q <= p
  {
    if ps == [] {
    } else {
      var before, last := ps[..|ps| - 1], ps[|ps| - 1];
      assert last in ps && forall p :: p in ps <==> p in before || p == last;
      FlagOfMarkedAll(n, before, stages, q);
      MarkedAllIsProduct(n, before, stages);
      FlagOfMarked(MarkedAll(n, before), last, stages, q);
    }
  }

  lemma {:induction false} FlagOfPruned(comp: Compatibility, n: Node, q: Pipeline)
    requires q != []
    ensures FlagAt(Pruned(comp, n), q) == FlagAt(n, q)
    decreases |q|
  {
    var r := Pruned(comp, n);
    SameIndex(n, r, q[0]);
    var i := ChildIndex(n, q[0]);
    if i < |n.children| && |q| > 1 {
      var c := n.children[i];
      FlagOfPruned(comp, c, q[1..]);
      SameFlags(c, c.(pruned := true), q[1..]);
    }
  }

  lemma {:induction false} FlagOfGrown(key: Key, stages: Stages, q: Pipeline)
    requires Proper(stages) && q != [] && |q| <= |stages| && forall i :: 0 <= i < |q| ==> q[i] in stages[i]
    ensures FlagAt(Grown(key, stages), q) <==> q[|q| - 1].componentType == DATASET
    decreases |q|
  {
    var n := Grown(key, stages);
    GrownIsProduct(key, stages);
    var k: nat :| k < |stages[0]| && stages[0][k] == q[0];
    ChildOfProduct(n, stages, k);
    if |q| > 1 {
      assert forall i :: 0 <= i < |q| - 1 ==> q[1..][i] in stages[1..][i];
      FlagOfGrown(stages[0][k], stages[1..], q[1..]);
    }
  }

  // ---------- Training visits the same paths ----------

  /** Only children the search turns back at are marked as pruned. */
  predicate Sound(comp: Compatibility, n: Node)
  {
    forall i :: 0 <= i < |n.children| ==>
      (n.children[i].pruned ==> !Connected(comp, n.key, n.children[i].key)) && Sound(comp, n.children[i])
  }

  lemma {:induction false} GrownIsSound(comp: Compatibility, key: Key, stages: Stages)
    ensures Sound(comp, Grown(key, stages))
    decreases |stages|
  {
    if stages == [] {
    } else {
      forall i | 0 <= i < |stages[0]|
        ensures Sound(comp, Grown(stages[0][i], stages[1..]))
      {
        GrownIsSound(comp, stages[0][i], stages[1..]);
      }
    }
  }

  lemma {:induction false} PrunedIsSound(comp: Compatibility, n: Node)
    requires Sound(comp, n)
    ensures Sound(comp, Pruned(comp, n))
  {
    forall i | 0 <= i < |n.children|
      ensures Sound(comp, Pruned(comp, n.children[i])) && Sound(comp, n.children[i].(pruned := true))
    {
      PrunedIsSound(comp, n.children[i]);
    }
  }

  lemma {:induction false} MarkedIsSound(comp: Compatibility, n: Node, p: Pipeline)
    requires Sound(comp, n)
    ensures Sound(comp, Marked(n, p))
    decreases |p|
  {
    if p == [] {
    } else {
      var i := ChildIndex(n, p[0]);
      if i == |n.children| {
        MarkedIsSound(comp, n, p[1..]);
      } else {
        assert Sound(comp, n.children[i]);
        assert Sound(comp, n.children[i].(trained := true));
        MarkedIsSound(comp, n.children[i].(trained := true), p[1..]);
      }
    }
  }

  lemma {:induction false} MarkedAllIsSound(comp: Compatibility, n: Node, ps: seq<Pipeline>)
    requires Sound(comp, n)
    ensures Sound(comp, MarkedAll(n, ps))
  {
    if ps == [] {
    } else {
      MarkedAllIsSound(comp, n, ps[..|ps| - 1]);
      MarkedIsSound(comp, MarkedAll(n, ps[..|ps| - 1]), ps[|ps| - 1]);
    }
  }

  /** On a pruned tree, training visits exactly the paths the search recorded, in the same order. */
  lemma {:induction false} TrainingVisitsCandidates(comp: Compatibility, n: Node, path: Path)
    requires Sound(comp, n)
    ensures TrainWalk(Pruned(comp, n), path) == Walk(comp, n, path)
    decreases n, |n.children| + 1
  {
    if n.children != [] {
      TrainingVisitsFrom(comp, n, 0, path);
    }
  }

  lemma {:induction false} TrainingVisitsFrom(comp: Compatibility, n: Node, i: nat, path: Path)
    requires Sound(comp, n) && i <= |n.children|
    ensures TrainWalkFrom(Pruned(comp, n), i, path) == WalkFrom(comp, n, i, path)
    decreases n, |n.children| - i
  {
    if i < |n.children| {
      TrainingVisitsFrom(comp, n, i + 1, path);
      if Connected(comp, n.key, n.children[i].key) {
        TrainingVisitsCandidates(comp, n.children[i], path + [EntryOf(n.children[i])]);
      }
    }
  }

  /** A second search records what the first did. */
  lemma {:induction false} SearchAgain(comp: Compatibility, n: Node, path: Path)
    ensures Walk(comp, Pruned(comp, n), path) == Walk(comp, n, path)
    decreases n, |n.children| + 1
  {
    if n.children != [] {
      SearchAgainFrom(comp, n, 0, path);
    }
  }

  lemma {:induction false} SearchAgainFrom(comp: Compatibility, n: Node, i: nat, path: Path)
    requires i <= |n.children|
    ensures WalkFrom(comp, Pruned(comp, n), i, path) == WalkFrom(comp, n, i, path)
    decreases n, |n.children| - i
  {
    if i < |n.children| {
      SearchAgainFrom(comp, n, i + 1, path);
      if Connected(comp, n.key, n.children[i].key) {
        SearchAgain(comp, n.children[i], path + [EntryOf(n.children[i])]);
      }
    }
  }
}
