/** The trial tree: the product of all component versions, stage by stage, searched for compatible pipelines. */
module TrialProduct {
  import opened Keys
  import opened Sequences

  type Key = MetaKey
  type Pipeline = seq<Key>
  type Compatibility = set<(Key, Key)>

  const DATASET := "dataset"
  const LIBRARY := "library"
  const ROOT_TYPE := "TrialTree"
  const ROOT_KEY := MetaKey(ROOT_TYPE, "root", SemanticVersion("master", 0, 0))

  datatype Node = Node(key: Key, trained: bool, pruned: bool, children: seq<Node>)

  /** One node on a path, with the flag it carries. */
  datatype Entry = Entry(key: Key, trained: bool)

  type Path = seq<Entry>

  /** The keys of each stage. */
  type Stages = seq<seq<Key>>

  function EntryOf(n: Node): Entry
  {
    Entry(n.key, n.trained)
  }

  function NewNode(key: Key): Node
  {
    Node(key, key.componentType == DATASET, false, [])
  }

  // ---------- Stages and compatibility ----------

  function MaxLength(ws: seq<Pipeline>): (n: nat)
    ensures forall w :: w in ws ==> |w| <= n
  {
    if ws == [] then 0 else
    var before, w := ws[..|ws| - 1], ws[|ws| - 1];
    var n := MaxLength(before);
    assert forall v :: v in ws <==> v in before || v == w;
    if |w| > n then |w| else n
  }

  /** Some workspace has this key at stage `i`. */
  ghost predicate AtStage(ws: seq<Pipeline>, i: nat, k: Key)
  {
    exists w :: w in ws && i < |w| && w[i] == k
  }

  predicate MatchedAt(ws: seq<Pipeline>, i: nat, v: Pipeline, w: Pipeline, k: Key, l: Key)
  {
    && v in ws && w in ws && i + 1 < |v| && i + 1 < |w| && v[i] == k && w[i + 1] == l
    && v[i].componentVersion.apiVersion == w[i].componentVersion.apiVersion
  }

  /** Matched at a stage before `n`. */
  ghost predicate MatchedBefore(ws: seq<Pipeline>, n: nat, k: Key, l: Key)
  {
    exists i: nat, v: Pipeline, w: Pipeline :: i < n && MatchedAt(ws, i, v, w, k, l)
  }

  /** The stages for which pairs are collected: as many as the first workspace has. */
  function Pairs(ws: seq<Pipeline>): nat
    requires ws != []
  {
    if ws[0] == [] then 0 else |ws[0]| - 1
  }

  /** At one of these stages, `k` and the predecessor of `l` are used by workspaces, with the same API version. */
  ghost predicate Matched(ws: seq<Pipeline>, k: Key, l: Key)
    requires ws != []
  {
    MatchedBefore(ws, Pairs(ws), k, l)
  }

  /** At every stage the keys that workspaces have there, each once. */
  ghost predicate Collects(ws: seq<Pipeline>, stages: Stages)
  {
    && |stages| == MaxLength(ws)
    && (forall i :: 0 <= i < |stages| ==> NoDuplicates(stages[i]))
    && forall i, k :: 0 <= i < |stages| ==> (k in stages[i] <==> AtStage(ws, i, k))
  }

  /** One more key at a stage, perhaps the first one there. */
  function WithKey(stages: Stages, i: nat, k: Key): Stages
    requires i <= |stages|
  {
    if i == |stages| then stages + [[k]] else if k in stages[i] then stages else stages[i := stages[i] + [k]]
  }

  /** The keys of one more workspace, added to the stages. */
  predicate Extended(before: Stages, w: Pipeline, stages: Stages)
  {
    && |stages| == (if |w| > |before| then |w| else |before|)
    && forall i :: 0 <= i < |stages| ==>
         stages[i] == if i >= |before| then [w[i]]
                      else if i < |w| && w[i] !in before[i] then before[i] + [w[i]]
                      else before[i]
  }

  lemma {:induction false} ExtendedMore(before: Stages, w: Pipeline, i: nat, stages: Stages)
    requires i < |w| && Extended(before, w[..i], stages)
    ensures i <= |stages| && Extended(before, w[..i + 1], WithKey(stages, i, w[i]))
    ensures |WithKey(stages, i, w[i])| == if i == |stages| then i + 1 else |stages|
  {
    var v, v', r := w[..i], w[..i + 1], WithKey(stages, i, w[i]);
    assert v' == v + [w[i]];
    forall j | 0 <= j < |r|
      ensures r[j] == if j >= |before| then [v'[j]]
                      else if j < |v'| && v'[j] !in before[j] then before[j] + [v'[j]]
                      else before[j]
    {
      if j < |stages| && j != i {
        assert r[j] == stages[j];
      }
    }
  }

  lemma {:induction false} NothingCollected()
    ensures Collects([], [])
  {
  }

  lemma {:induction false} NothingExtended(stages: Stages)
    ensures Extended(stages, [], stages)
  {
  }

  lemma {:induction false} AtStageMore(ws: seq<Pipeline>, w: Pipeline, i: nat, k: Key)
    ensures AtStage(ws + [w], i, k) <==> AtStage(ws, i, k) || (i < |w| && w[i] == k)
  {
    assert forall v :: v in ws + [w] <==> v in ws || v == w;
  }

  lemma {:induction false} CollectsMore(ws: seq<Pipeline>, w: Pipeline, before: Stages, stages: Stages)
    requires Collects(ws, before) && Extended(before, w, stages)
    ensures Collects(ws + [w], stages)
  {
    var all := ws + [w];
    assert all[..|all| - 1] == ws;
    forall i: nat, k | i < |stages|
      ensures k in stages[i] <==> AtStage(all, i, k)
    {
      AtStageMore(ws, w, i, k);
      if AtStage(ws, i, k) {
        var v :| v in ws && i < |v| && v[i] == k;
        assert i < |before|;
      }
    }
  }

  method StageDict(ws: seq<Pipeline>) returns (stages: Stages, depth: nat)
    ensures Collects(ws, stages)
    ensures depth == if stages == [] then 1 else |stages|
  {
    hide Collects, Extended;
    stages := [];
    var last := 0;
    NothingCollected();
    assert ws[..0] == [];
    for x := 0 to |ws|
      invariant Collects(ws[..x], stages) && last == if stages == [] then 0 else |stages| - 1
    {
      ghost var before := stages;
      var w := ws[x];
      NothingExtended(before);
      assert w[..0] == [];
      for i := 0 to |w|
        invariant Extended(before, w[..i], stages) && last == if stages == [] then 0 else |stages| - 1
      {
        ExtendedMore(before, w, i, stages);
        if i < |stages| {
          if w[i] !in stages[i] {
            stages := stages[i := stages[i] + [w[i]]];
          }
        } else {
          stages := stages + [[w[i]]];
        }
        if i > last {
          last := i;
        }
      }
      assert w[..|w|] == w;
      assert ws[..x + 1] == ws[..x] + [w];
      CollectsMore(ws[..x], w, before, stages);
    }
    assert ws[..|ws|] == ws;
    depth := last + 1;
  }

  // ---------- Building the tree ----------

  function Leaves(keys: seq<Key>): (r: seq<Node>)
    ensures |r| == |keys| && forall i :: 0 <= i < |r| ==> r[i] == NewNode(keys[i])
  {
    seq(|keys|, i requires 0 <= i < |keys| => NewNode(keys[i]))
  }

  /** `keys` as new children of every node at the given depth below `n`. */
  function AddLevel(n: Node, keys: seq<Key>, depth: nat): Node
    decreases depth, 0
  {
    if depth == 0 then n.(children := n.children + Leaves(keys))
    else n.(children := AddLevelAll(n.children, keys, depth - 1))
  }

  function AddLevelAll(ns: seq<Node>, keys: seq<Key>, depth: nat): (r: seq<Node>)
    ensures |r| == |ns| && forall i :: 0 <= i < |r| ==> r[i] == AddLevel(ns[i], keys, depth)
    decreases depth, |ns| + 1
  {
    if ns == [] then [] else [AddLevel(ns[0], keys, depth)] + AddLevelAll(ns[1..], keys, depth)
  }

  /** The full product below a node. */
  function Grown(key: Key, stages: Stages): Node
    decreases |stages|, 1
  {
    NewNode(key).(children := GrownAll(stages))
  }

  function GrownAll(stages: Stages): (r: seq<Node>)
    ensures stages == [] ==> r == []
    ensures stages != [] ==>
      |r| == |stages[0]| && forall i :: 0 <= i < |r| ==> r[i] == Grown(stages[0][i], stages[1..])
    decreases |stages|, 0
  {
    if stages == [] then [] else
    seq(|stages[0]|, i requires 0 <= i < |stages[0]| => Grown(stages[0][i], stages[1..]))
  }

  lemma {:induction false} LevelOfGrown(key: Key, stages: Stages, keys: seq<Key>)
    ensures AddLevel(Grown(key, stages), keys, |stages|) == Grown(key, stages + [keys])
    decreases |stages|
  {
    var all := stages + [keys];
    var r := AddLevel(Grown(key, stages), keys, |stages|);
    if stages == [] {
      assert all[1..] == [];
      forall i | 0 <= i < |keys|
        ensures r.children[i] == GrownAll(all)[i]
      {
        assert NewNode(keys[i]) == Grown(keys[i], []);
      }
      assert r.children == GrownAll(all);
    } else {
      assert all[1..] == stages[1..] + [keys] && all[0] == stages[0];
      forall i | 0 <= i < |r.children|
        ensures r.children[i] == GrownAll(all)[i]
      {
        LevelOfGrown(stages[0][i], stages[1..], keys);
      }
      assert r.children == GrownAll(all);
    }
  }

  method AddNodes(stages: Stages, depth: nat) returns (root: Node)
    requires depth == |stages|
    ensures root == Grown(ROOT_KEY, stages).(trained := true)
  {
    root := NewNode(ROOT_KEY);
    assert root == Grown(ROOT_KEY, stages[..0]);
    for i := 0 to depth
      invariant root == Grown(ROOT_KEY, stages[..i])
    {
      LevelOfGrown(ROOT_KEY, stages[..i], stages[i]);
      assert stages[..i] + [stages[i]] == stages[..i + 1];
      root := AddLevel(root, stages[i], i);
    }
    assert stages[..depth] == stages;
    root := root.(trained := true);
  }

  // ---------- Walking the tree ----------

  predicate Connected(comp: Compatibility, parent: Key, child: Key)
  {
    (parent, child) in comp || parent.componentType == ROOT_TYPE
  }

  /** The paths to the leaves that the pruning search records, `path` being the nodes walked so far. */
  function Walk(comp: Compatibility, n: Node, path: Path): seq<Path>
    decreases n, |n.children| + 1
  {
    if n.children == [] then [path] else WalkFrom(comp, n, 0, path)
  }

  function WalkFrom(comp: Compatibility, n: Node, i: nat, path: Path): seq<Path>
    requires i <= |n.children|
    decreases n, |n.children| - i
  {
    if i == |n.children| then [] else
    var c := n.children[i];
    (if Connected(comp, n.key, c.key) then Walk(comp, c, path + [EntryOf(c)]) else []) + WalkFrom(comp, n, i + 1, path)
  }

  /** The tree with the children the search turns back at marked. */
  function Pruned(comp: Compatibility, n: Node): (r: Node)
    ensures r.key == n.key && r.trained == n.trained && r.pruned == n.pruned && |r.children| == |n.children|
    ensures forall i :: 0 <= i < |r.children| ==>
      r.children[i] == if Connected(comp, n.key, n.children[i].key) then Pruned(comp, n.children[i])
                       else n.children[i].(pruned := true)
  {
    n.(children := seq(|n.children|, i requires 0 <= i < |n.children| =>
      if Connected(comp, n.key, n.children[i].key) then Pruned(comp, n.children[i])
      else n.children[i].(pruned := true)))
  }

  /** The paths to the leaves that training visits. */
  function TrainWalk(n: Node, path: Path): seq<Path>
    decreases n, |n.children| + 1
  {
    if n.children == [] then [path] else TrainWalkFrom(n, 0, path)
  }

  function TrainWalkFrom(n: Node, i: nat, path: Path): seq<Path>
    requires i <= |n.children|
    decreases n, |n.children| - i
  {
    if i == |n.children| then [] else
    var c := n.children[i];
    (if !c.pruned then TrainWalk(c, path + [EntryOf(c)]) else []) + TrainWalkFrom(n, i + 1, path)
  }

  function IndexFrom(n: Node, k: Key, from: nat): (i: nat)
    requires from <= |n.children|
    ensures from <= i <= |n.children|
    ensures i < |n.children| ==> n.children[i].key == k
    ensures forall j :: from <= j < i ==> n.children[j].key != k
    decreases |n.children| - from
  {
    if from == |n.children| || n.children[from].key == k then from else IndexFrom(n, k, from + 1)
  }

  /** The position of the child with a key. */
  function ChildIndex(n: Node, k: Key): (i: nat)
    ensures i <= |n.children|
    ensures i < |n.children| ==> n.children[i].key == k
    ensures forall j :: 0 <= j < i ==> n.children[j].key != k
  {
    IndexFrom(n, k, 0)
  }

  /** The tree with the nodes of a trained pipeline marked. */
  function Marked(n: Node, p: Pipeline): (r: Node)
    ensures r.key == n.key && r.trained == n.trained && r.pruned == n.pruned && |r.children| == |n.children|
    decreases |p|
  {
    if p == [] then n else
    var i := ChildIndex(n, p[0]);
    if i == |n.children| then Marked(n, p[1..])
    else n.(children := n.children[i := Marked(n.children[i].(trained := true), p[1..])])
  }

  function MarkedAll(n: Node, ps: seq<Pipeline>): (r: Node)
    ensures r.key == n.key && r.trained == n.trained && r.pruned == n.pruned && |r.children| == |n.children|
  {
    if ps == [] then n else Marked(MarkedAll(n, ps[..|ps| - 1]), ps[|ps| - 1])
  }
}
