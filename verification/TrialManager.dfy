/** Incremental execution: which nodes of a candidate are executed, and where each takes its input. */
module TrialManager {
  import opened Wrappers
  import opened Keys
  import FileStore
  import opened TrialProduct
  import opened TrialTree

  /** A node of the candidate to run; `output` is a folder of this execution or the version of a stored output, which is
      stored under the workspace that was trained. */
  datatype RunNode = RunNode(key: Key, trained: bool, output: string, workspace: Option<Key>)

  datatype Command = Command(index: nat, key: Key, input: string, output: string)

  /** The surroundings of a run: folders, files already there, where datasets are unpacked, and what fetching a library
      fails with, if it does. */
  datatype Setting = Setting(outputDir: string, retrain: bool, present: string -> bool, dataset: Key -> string,
                             missing: Key -> Option<FileStore.StoreError>)

  datatype RunError = AttributeError | IndexError | Missing(error: FileStore.StoreError)

  function Join(dir: string, name: string): string
  {
    if dir == "" || dir[|dir| - 1] == '/' then dir + name else dir + "/" + name
  }

  /** Where a component leaves its output; stored outputs are unpacked there too. */
  function OutputPath(s: Setting, key: Key): string
  {
    Join(s.outputDir, KeyString(key)) + "/"
  }

  lemma {:induction false} JoinedBehind(dir: string, name: string)
    ensures Join(dir + "/", name) == dir + "/" + name
  {
  }

  /** A folder with the slash behind it. */
  function Folder(dir: string): string
  {
    if dir == "" || dir[|dir| - 1] == '/' then dir else dir + "/"
  }

  lemma {:induction false} JoinExamples()
    ensures Join("a", "b") == "a/b" && Join("a/", "b") == "a/b" && Join("", "b") == "b"
    ensures Folder("a") == "a/" && Folder("a/") == "a/" && Folder("") == ""
  {
  }

  lemma {:induction false} OutputIn(s: Setting, key: Key)
    ensures OutputPath(s, key) == Folder(s.outputDir) + KeyString(key) + "/"
  {
    hide KeyString;
    assert s.outputDir + "/" + KeyString(key) == (s.outputDir + "/") + KeyString(key);
  }

  /** Components with different keys never write into the same folder, if their keys can be printed and parsed. */
  lemma {:induction false} OutputsDiffer(s: Setting, k: Key, l: Key)
    requires Printable(k) && Printable(l)
    ensures OutputPath(s, k) == OutputPath(s, l) <==> k == l
  {
    hide KeyString, Printable, OutputPath;
    OutputIn(s, k);
    OutputIn(s, l);
    if OutputPath(s, k) == OutputPath(s, l) {
      var n := |Folder(s.outputDir)|;
      var p, q := OutputPath(s, k), OutputPath(s, l);
      assert p[n..|p| - 1] == KeyString(k) && q[n..|q| - 1] == KeyString(l);
      KeyStringsAreUnique(k, l);
    }
  }

  predicate Skips(s: Setting, n: RunNode)
  {
    n.trained && (!s.retrain || n.key.componentType == DATASET)
  }

  function StartFrom(s: Setting, nodes: seq<RunNode>, from: nat): (i: nat)
    requires from <= |nodes|
    ensures from <= i <= |nodes|
    ensures forall j :: from <= j < i ==> Skips(s, nodes[j])
    ensures i < |nodes| ==> !Skips(s, nodes[i])
    decreases |nodes| - from
  {
    if from == |nodes| || !Skips(s, nodes[from]) then from else StartFrom(s, nodes, from + 1)
  }

  /** The first node that is executed, or the number of nodes. */
  function Start(s: Setting, nodes: seq<RunNode>): (i: nat)
    ensures i <= |nodes|
    ensures forall j :: 0 <= j < i ==> Skips(s, nodes[j])
    ensures i < |nodes| ==> !Skips(s, nodes[i])
  {
    StartFrom(s, nodes, 0)
  }

  /** The node from which the first executed one takes its input. */
  function Previous(nodes: seq<RunNode>, i: nat): RunNode
    requires i < |nodes|
  {
    if i == 0 then nodes[0] else nodes[i - 1]
  }

  /** Where execution starts: behind the trained nodes, or with retraining behind the trained datasets. */
  lemma {:induction false} StartIs(s: Setting, nodes: seq<RunNode>)
    ensures var i := Start(s, nodes);
      && (forall j :: 0 <= j < i ==> nodes[j].trained && (s.retrain ==> nodes[j].key.componentType == "dataset"))
      && (i < |nodes| ==> !nodes[i].trained || (s.retrain && nodes[i].key.componentType != "dataset"))
  {
  }

  /** The input of the first executed node: its predecessor's dataset or output, or else nothing. */
  function FirstInput(s: Setting, prev: RunNode): string
  {
    if prev.key.componentType == DATASET then s.dataset(prev.key)
    else if prev.key.componentType == LIBRARY then
      (if s.present(prev.output) then prev.output else OutputPath(s, prev.key))
    else ""
  }

  /** The input has to be fetched, and there is no workspace to fetch it from. */
  predicate NothingToFetch(s: Setting, prev: RunNode)
  {
    prev.key.componentType == LIBRARY && !s.present(prev.output) && prev.workspace == None
  }

  predicate Unfetched(s: Setting, nodes: seq<RunNode>)
  {
    var i := Start(s, nodes);
    i < |nodes| && NothingToFetch(s, Previous(nodes, i))
  }

  /** Fetching a component from the library storage: this holds nothing but libraries. */
  function Lookup(s: Setting, key: Key): Option<FileStore.StoreError>
  {
    if key.componentType != LIBRARY then Some(FileStore.KeyError) else s.missing(key)
  }

  function StopFrom(s: Setting, nodes: seq<RunNode>, from: nat): (i: nat)
    requires from <= |nodes|
    ensures from <= i <= |nodes|
    ensures forall j :: from <= j < i ==> Lookup(s, nodes[j].key) == None
    ensures i < |nodes| ==> Lookup(s, nodes[i].key) != None
    decreases |nodes| - from
  {
    if from == |nodes| || Lookup(s, nodes[from].key) != None then from else StopFrom(s, nodes, from + 1)
  }

  /** The node at which preparing the execution fails, or the number of nodes. */
  function Stop(s: Setting, nodes: seq<RunNode>): (i: nat)
    ensures Start(s, nodes) <= i <= |nodes|
  {
    if Unfetched(s, nodes) then Start(s, nodes) else StopFrom(s, nodes, Start(s, nodes))
  }

  /** What it fails with, if it does. */
  function Failure(s: Setting, nodes: seq<RunNode>): Option<RunError>
  {
    if Unfetched(s, nodes) then Some(AttributeError)
    else if Stop(s, nodes) == |nodes| then None
    else Some(Missing(Lookup(s, nodes[Stop(s, nodes)].key).value))
  }

  lemma {:induction false} FailsWhen(s: Setting, nodes: seq<RunNode>)
    ensures Failure(s, nodes).Some?
       <==> Unfetched(s, nodes) || exists i :: Start(s, nodes) <= i < |nodes| && Lookup(s, nodes[i].key).Some?
  {
    hide Lookup, Start, Unfetched;
  }

  /** When preparing the execution fails, and with what. */
  lemma {:induction false} FailureIs(s: Setting, nodes: seq<RunNode>)
    ensures var i := Start(s, nodes);
      var unfetched := i < |nodes| &&
        (var p := if i == 0 then nodes[0] else nodes[i - 1];
         p.key.componentType == "library" && !s.present(p.output) && p.workspace == None);
      match Failure(s, nodes)
      case None =>
        !unfetched && forall j :: i <= j < |nodes| ==>
          nodes[j].key.componentType == "library" && s.missing(nodes[j].key) == None
      case Some(AttributeError) => unfetched
      case Some(IndexError) => false
      case Some(Missing(e)) =>
        !unfetched && exists j ::
          && i <= j < |nodes|
          && (forall l :: i <= l < j ==>
                nodes[l].key.componentType == "library" && s.missing(nodes[l].key) == None)
          && (if nodes[j].key.componentType == "library" then s.missing(nodes[j].key) == Some(e)
              else e == FileStore.KeyError)
  {
    hide Start;
    var i := Start(s, nodes);
    if !Unfetched(s, nodes) {
      var j := Stop(s, nodes);
      forall l | i <= l < j
        ensures Lookup(s, nodes[l].key) == None
      {
      }
    }
  }

  predicate IsCommand(s: Setting, nodes: seq<RunNode>, i: nat, c: Command)
    requires i < |nodes|
  {
    && c.index == i && c.key == nodes[i].key && c.output == OutputPath(s, nodes[i].key)
    && c.input == if i == Start(s, nodes) then FirstInput(s, Previous(nodes, i))
                  else if i == 0 then "" else OutputPath(s, nodes[i - 1].key)
  }

  lemma {:induction false} StopsUnfetched(s: Setting, nodes: seq<RunNode>)
    requires Unfetched(s, nodes)
    ensures Stop(s, nodes) == Start(s, nodes) && Failure(s, nodes) == Some(AttributeError)
  {
  }

  lemma {:induction false} StopsAt(s: Setting, nodes: seq<RunNode>, i: nat)
    requires !Unfetched(s, nodes) && Start(s, nodes) <= i <= |nodes|
    requires forall j :: Start(s, nodes) <= j < i ==> Lookup(s, nodes[j].key) == None
    requires i < |nodes| ==> Lookup(s, nodes[i].key).Some?
    ensures Stop(s, nodes) == i
    ensures Failure(s, nodes) == if i == |nodes| then None else Some(Missing(Lookup(s, nodes[i].key).value))
  {
    hide Start, Lookup;
  }

  lemma {:induction false} NextCommand(s: Setting, nodes: seq<RunNode>, i: nat, input: string)
    requires Start(s, nodes) <= i < |nodes|
    requires input == if i == Start(s, nodes) then FirstInput(s, Previous(nodes, i))
                      else OutputPath(s, nodes[i - 1].key)
    ensures IsCommand(s, nodes, i, Command(i, nodes[i].key, input, OutputPath(s, nodes[i].key)))
  {
  }

  lemma {:induction false} CommandsChain(s: Setting, nodes: seq<RunNode>, commands: seq<Command>)
    requires |commands| == |nodes| - Start(s, nodes)
    requires forall j :: 0 <= j < |commands| ==> IsCommand(s, nodes, Start(s, nodes) + j, commands[j])
    ensures forall j :: 0 < j < |commands| ==> commands[j].input == commands[j - 1].output
  {
    hide OutputPath, FirstInput, Start;
    forall j | 0 < j < |commands|
      ensures commands[j].input == commands[j - 1].output
    {
      assert IsCommand(s, nodes, Start(s, nodes) + (j - 1), commands[j - 1]);
    }
  }

  /** The input and the folders of the commands, in terms of the nodes and strings alone. */
  lemma {:induction false} CommandsSpelledOut(s: Setting, nodes: seq<RunNode>, commands: seq<Command>)
    requires |commands| == |nodes| - Start(s, nodes)
    requires forall j :: 0 <= j < |commands| ==> IsCommand(s, nodes, Start(s, nodes) + j, commands[j])
    ensures commands != [] ==>
      var first := |nodes| - |commands|;
      var p := if first == 0 then nodes[0] else nodes[first - 1];
      && (p.key.componentType == "dataset" ==> commands[0].input == s.dataset(p.key))
      && (p.key.componentType == "library" ==>
            commands[0].input == if s.present(p.output) then p.output
                                 else Folder(s.outputDir) + KeyString(p.key) + "/")
    ensures forall j :: 0 <= j < |commands| ==>
      && commands[j].key == nodes[|nodes| - |commands| + j].key
      && commands[j].output == Folder(s.outputDir) + KeyString(commands[j].key) + "/"
  {
    hide Start, KeyString;
    if commands != [] {
      assert IsCommand(s, nodes, Start(s, nodes), commands[0]);
      var p := Previous(nodes, Start(s, nodes));
      OutputIn(s, p.key);
      assert "dataset"[0] != "library"[0];
    }
    forall j | 0 <= j < |commands|
      ensures commands[j].output == Folder(s.outputDir) + KeyString(commands[j].key) + "/"
    {
      OutputIn(s, commands[j].key);
    }
  }

  method FetchInput(s: Setting, prev: RunNode) returns (path: Option<string>)
    ensures path == if NothingToFetch(s, prev) then None else Some(FirstInput(s, prev))
  {
    hide OutputPath;
    var inputPath := "";
    if prev.key.componentType == DATASET {
      inputPath := s.dataset(prev.key);
    } else if prev.key.componentType == LIBRARY {
      if s.present(prev.output) {
        inputPath := prev.output;
      } else if prev.workspace == None {
        return None;
      } else {
        inputPath := OutputPath(s, prev.key);
      }
    }
    return Some(inputPath);
  }

  /** The executed nodes are a suffix, each with its predecessor's output as input, unless the input of the first
      or one of their components cannot be fetched. */
  method BuildVenvs(s: Setting, nodes: seq<RunNode>) returns (r: Result<seq<Command>, RunError>, after: seq<RunNode>)
    ensures r.Err? <==> Unfetched(s, nodes)
                        || exists i :: Start(s, nodes) <= i < |nodes| && Lookup(s, nodes[i].key).Some?
    ensures Failure(s, nodes) == if r.Err? then Some(r.error) else None
    ensures r.Ok? ==> |r.value| == |nodes| - Start(s, nodes)
    ensures r.Ok? ==> forall j :: 0 <= j < |r.value| ==> IsCommand(s, nodes, Start(s, nodes) + j, r.value[j])
    ensures r.Ok? ==> forall j :: 0 < j < |r.value| ==> r.value[j].input == r.value[j - 1].output
    ensures r.Ok? && r.value != [] ==>
      var first := |nodes| - |r.value|;
      var p := if first == 0 then nodes[0] else nodes[first - 1];
      && (p.key.componentType == "dataset" ==> r.value[0].input == s.dataset(p.key))
      && (p.key.componentType == "library" ==>
            r.value[0].input == if s.present(p.output) then p.output else Folder(s.outputDir) + KeyString(p.key) + "/")
    ensures r.Ok? ==> forall j :: 0 <= j < |r.value| ==>
      && r.value[j].key == nodes[|nodes| - |r.value| + j].key
      && r.value[j].output == Folder(s.outputDir) + KeyString(r.value[j].key) + "/"
    ensures |after| == |nodes| && forall i :: 0 <= i < |nodes| ==>
      after[i] == if i < Start(s, nodes) || i >= Stop(s, nodes) then nodes[i]
                  else nodes[i].(output := OutputPath(s, nodes[i].key))
  {
    hide OutputPath, KeyString, Lookup, NothingToFetch, FirstInput, Start, Folder, IsCommand, Stop, Failure;
    FailsWhen(s, nodes);
    var commands: seq<Command> := [];
    after := nodes;
    ghost var start := Start(s, nodes);
    var isFirstComponent, inputPath := true, "";
    for i := 0 to |nodes|
      invariant |after| == |nodes| && isFirstComponent == (i <= start)
      invariant |commands| == if i <= start then 0 else i - start
      invariant i > start ==> !Unfetched(s, nodes)
      invariant forall j :: start <= j < i ==> Lookup(s, nodes[j].key) == None
      invariant i > start ==> inputPath == OutputPath(s, nodes[i - 1].key)
      invariant i <= start ==> inputPath == ""
      invariant forall j :: 0 <= j < |commands| ==> IsCommand(s, nodes, start + j, commands[j])
      invariant forall j :: 0 <= j < |nodes| ==>
        after[j] == if j < start || j >= i then nodes[j] else nodes[j].(output := OutputPath(s, nodes[j].key))
    {
      var node := after[i];
      if isFirstComponent {
        if node.trained {
          if !s.retrain {
            continue;
          } else if node.key.componentType == DATASET {
            continue;
          }
        }
        var prev := if i == 0 then node else after[i - 1];
        var fetched := FetchInput(s, prev);
        if fetched.None? {
          StopsUnfetched(s, nodes);
          return Err(AttributeError), after;
        }
        inputPath := fetched.value;
        isFirstComponent := false;
      }
      var missing := Lookup(s, node.key);
      if missing.Some? {
        StopsAt(s, nodes, i);
        return Err(Missing(missing.value)), after;
      }
      var outputPath := OutputPath(s, node.key);
      after := after[i := node.(output := outputPath)];
      NextCommand(s, nodes, i, inputPath);
      commands := commands + [Command(i, node.key, inputPath, outputPath)];
      inputPath := outputPath;
    }
    StopsAt(s, nodes, |nodes|);
    CommandsChain(s, nodes, commands);
    CommandsSpelledOut(s, nodes, commands);
    return Ok(commands), after;
  }

  /** Where the final results are read from: the output of the last node executed, if there is one. Nothing is executed
      unless all is prepared. */
  method TrainNodeList(s: Setting, nodes: seq<RunNode>) returns (r: Result<string, RunError>, after: seq<RunNode>)
    ensures |after| == |nodes|
    ensures r == Err(IndexError) <==> forall n :: n in nodes ==> Skips(s, n)
    ensures Failure(s, nodes).Some? <==> r.Err? && r.error != IndexError
    ensures Failure(s, nodes).Some? ==> r == Err(Failure(s, nodes).value)
    ensures r.Ok? ==> nodes != [] && r.value == Join(OutputPath(s, nodes[|nodes| - 1].key), "final_results.txt")
    ensures r.Ok? ==>
      r.value == Folder(s.outputDir) + KeyString(nodes[|nodes| - 1].key) + "/" + "final_results.txt"
    ensures r.Ok? ==> forall n :: n in after ==> n.trained
  {
    hide OutputPath, Join, NothingToFetch, Lookup, Folder, KeyString;
    ghost var start := Start(s, nodes);
    assert start < |nodes| ==> nodes[start] in nodes;
    var built;
    built, after := BuildVenvs(s, nodes);
    if built.Err? {
      return Err(built.error), after;
    }
    var commands := built.value;
    if |commands| == 0 {
      return Err(IndexError), after;
    }
    r := Ok(Join(commands[|commands| - 1].output, "final_results.txt"));
    JoinedBehind(Folder(s.outputDir) + KeyString(nodes[|nodes| - 1].key), "final_results.txt");
    for i := 0 to |after|
      invariant |after| == |nodes| && forall j :: 0 <= j < i ==> after[j].trained
    {
      after := after[i := after[i].(trained := true)];
    }
  }

  // ---------- Committing a workspace ----------

  /** Marking a library as trained also records the workspace and its output. */
  predicate RunOf(n: RunNode, e: Entry)
  {
    && n.key == e.key && n.trained == e.trained
    && (n.key.componentType == LIBRARY ==> if n.trained then n.workspace.Some? else n.workspace.None? && n.output == "")
  }

  /** The nodes of a candidate, with what is known of their outputs. */
  predicate Runs(nodes: seq<RunNode>, es: Path)
  {
    |nodes| == |es| && forall i :: 0 <= i < |es| ==> RunOf(nodes[i], es[i])
  }

  /** A trained workspace leads to the node at `i`, or it is a dataset. */
  ghost predicate TrainedAt(trained: seq<Pipeline>, w: Pipeline, i: nat)
    requires i < |w|
  {
    TrainedPrefix(trained, w[..i + 1])
  }

  lemma {:induction false} FlagsOfNodes(ws: seq<Pipeline>, trained: seq<Pipeline>, es: Path, w: Pipeline,
                                        nodes: seq<RunNode>)
    requires ws != [] && CandidateOf(ws, trained, |w|, es, w) && Runs(nodes, es)
    ensures |nodes| == |w|
    ensures forall i :: 0 <= i < |w| ==> (nodes[i].trained <==> TrainedAt(trained, w, i))
  {
    hide TrainedPrefix, CandidateKeys;
    forall i | 0 <= i < |w|
      ensures nodes[i].trained <==> TrainedAt(trained, w, i)
    {
      assert EntryAt(trained, w, i, es[i]);
    }
  }

  lemma {:induction false} KeysOfNodes(ws: seq<Pipeline>, trained: seq<Pipeline>, es: Path, w: Pipeline,
                                       nodes: seq<RunNode>, i: nat)
    requires ws != [] && CandidateOf(ws, trained, |w|, es, w) && Runs(nodes, es) && i < |w|
    ensures |nodes| == |w| && nodes[i].key == w[i]
  {
    hide TrainedPrefix, CandidateKeys;
    assert EntryAt(trained, w, i, es[i]);
  }

  lemma {:induction false} EarlierOnTheSamePipeline(trained: seq<Pipeline>, w: Pipeline, k: nat, i: nat)
    requires k <= i < |w| && TrainedAt(trained, w, i) && w[i].componentType != DATASET
    ensures TrainedAt(trained, w, k)
  {
    var t :| t in trained && w[..i + 1] <= t;
    assert w[..k + 1] <= t;
  }

  lemma {:induction false} DatasetsAreTrained(trained: seq<Pipeline>, w: Pipeline, i: nat)
    requires i < |w| && w[i].componentType == DATASET
    ensures TrainedAt(trained, w, i)
  {
  }

  /**
   * Without retraining, the nodes to execute are exactly those from the first that no trained workspace's pipeline
   * leads to and that is no dataset. Of these, only datasets count as trained.
   */
  lemma {:induction false} ExecutesTheUntrainedSuffix(s: Setting, ws: seq<Pipeline>, trained: seq<Pipeline>, es: Path,
                                                      w: Pipeline, nodes: seq<RunNode>)
    requires ws != [] && !s.retrain && CandidateOf(ws, trained, |w|, es, w) && Runs(nodes, es)
    ensures var k := Start(s, nodes);
      && k <= |nodes| == |w|
      && (forall i :: 0 <= i < k ==> TrainedAt(trained, w, i))
      && (k < |w| ==> !TrainedAt(trained, w, k))
      && (forall i :: k <= i < |w| ==> (nodes[i].trained <==> w[i].componentType == DATASET))
  {
    hide TrainedAt, CandidateOf;
    var k := Start(s, nodes);
    FlagsOfNodes(ws, trained, es, w, nodes);
    forall i | k <= i < |w|
      ensures nodes[i].trained <==> w[i].componentType == DATASET
    {
      if w[i].componentType == DATASET {
        DatasetsAreTrained(trained, w, i);
      } else if nodes[i].trained {
        EarlierOnTheSamePipeline(trained, w, k, i);
      }
    }
  }

  /** Whenever execution without retraining gets under way, no node to execute has been trained before. */
  lemma {:induction false} NothingTrainedTwice(s: Setting, ws: seq<Pipeline>, trained: seq<Pipeline>, es: Path,
                                               w: Pipeline, nodes: seq<RunNode>)
    requires ws != [] && !s.retrain && CandidateOf(ws, trained, |w|, es, w) && Runs(nodes, es)
    requires Failure(s, nodes) == None
    ensures |nodes| == |w| && forall i :: Start(s, nodes) <= i < |w| ==> !nodes[i].trained && !TrainedAt(trained, w, i)
  {
    hide TrainedAt, CandidateOf;
    FlagsOfNodes(ws, trained, es, w, nodes);
    ExecutesTheUntrainedSuffix(s, ws, trained, es, w, nodes);
    forall i | Start(s, nodes) <= i < |w|
      ensures !nodes[i].trained
    {
      assert Lookup(s, nodes[i].key) == None;
      assert RunOf(nodes[i], es[i]);
      KeysOfNodes(ws, trained, es, w, nodes, i);
    }
  }

  /** Fetching the first input fails exactly if the pipeline begins with a library that was not trained before. */
  lemma {:induction false} UntrainedLibraryFirst(s: Setting, ws: seq<Pipeline>, trained: seq<Pipeline>, es: Path,
                                                 w: Pipeline, nodes: seq<RunNode>)
    requires ws != [] && !s.retrain && CandidateOf(ws, trained, |w|, es, w) && Runs(nodes, es) && !s.present("")
    ensures Unfetched(s, nodes) <==> w != [] && w[0].componentType == LIBRARY && !TrainedAt(trained, w, 0)
  {
    hide TrainedAt, CandidateKeys;
    FlagsOfNodes(ws, trained, es, w, nodes);
    var k := Start(s, nodes);
    if w != [] {
      assert nodes[0].key == w[0] by { assert EntryAt(trained, w, 0, es[0]); }
      if 0 < k < |nodes| {
        assert Skips(s, nodes[k - 1]) && RunOf(nodes[k - 1], es[k - 1]);
      }
    }
  }

  /**
   * It gets under way exactly if, with a first component that is no untrained library, all components from the first
   * untrained one on are libraries, and these can be fetched.
   */
  lemma {:induction false} UnderWay(s: Setting, ws: seq<Pipeline>, trained: seq<Pipeline>, es: Path, w: Pipeline,
                                    nodes: seq<RunNode>)
    requires ws != [] && !s.retrain && CandidateOf(ws, trained, |w|, es, w) && Runs(nodes, es) && !s.present("")
    ensures Failure(s, nodes) == None
       <==> && (w != [] && w[0].componentType == LIBRARY ==> TrainedAt(trained, w, 0))
            && forall k, i :: 0 <= k <= i < |w| && !TrainedAt(trained, w, k) ==> Lookup(s, w[i]) == None
  {
    hide TrainedAt, CandidateOf, Lookup;
    UntrainedLibraryFirst(s, ws, trained, es, w, nodes);
    ExecutesTheUntrainedSuffix(s, ws, trained, es, w, nodes);
    var start := Start(s, nodes);
    forall i: nat | i < |w|
      ensures nodes[i].key == w[i]
    {
      KeysOfNodes(ws, trained, es, w, nodes, i);
    }
  }

  /** Training fails exactly if every node is trained: so it does for a pipeline that has been trained before. */
  lemma {:induction false} NothingToTrain(s: Setting, ws: seq<Pipeline>, trained: seq<Pipeline>, es: Path,
                                          w: Pipeline, nodes: seq<RunNode>)
    requires ws != [] && !s.retrain && CandidateOf(ws, trained, |w|, es, w) && Runs(nodes, es)
    ensures Start(s, nodes) == |nodes| <==> forall i :: 0 <= i < |w| ==> TrainedAt(trained, w, i)
    ensures w in trained ==> Start(s, nodes) == |nodes|
  {
    ExecutesTheUntrainedSuffix(s, ws, trained, es, w, nodes);
    if w in trained {
      forall i | 0 <= i < |w|
        ensures TrainedAt(trained, w, i)
      {
        assert w[..i + 1] <= w;
      }
    }
  }

  /** The nodes of a pipeline none of which has been trained. */
  function RunNodes(w: Pipeline, es: Path): (nodes: seq<RunNode>)
    requires |w| == |es|
    ensures |nodes| == |w| && forall i :: 0 <= i < |w| ==> nodes[i] == RunNode(w[i], es[i].trained, "", None)
  {
    seq(|w|, i requires 0 <= i < |w| => RunNode(w[i], es[i].trained, "", None))
  }

  lemma {:induction false} DatasetsOnly(s: Setting, w: Pipeline, es: Path, nodes: seq<RunNode>)
    requires !s.retrain && |w| == |es| == 3 && nodes == RunNodes(w, es)
    requires forall i :: 0 <= i < |w| ==> EntryAt([], w, i, es[i])
    requires w[0].componentType == w[2].componentType == DATASET && w[1].componentType == LIBRARY
    ensures Runs(nodes, es) && Start(s, nodes) == 1 && nodes[2].trained
    ensures s.missing(w[1]) == None ==> Failure(s, nodes) == Some(Missing(FileStore.KeyError))
  {
    assert DATASET[0] == 'd' && LIBRARY[0] == 'l';
    hide Start;
    forall i | 0 <= i < 3
      ensures nodes[i].trained <==> w[i].componentType == DATASET
    {
      assert EntryAt([], w, i, es[i]);
    }
    assert Skips(s, nodes[0]) && !Skips(s, nodes[1]);
    assert StopFrom(s, nodes, 1) == if s.missing(w[1]) == None then StopFrom(s, nodes, 2) else 1;
  }

  /** A dataset behind an untrained library: it counts as trained, but is to be executed, and cannot be fetched. */
  lemma {:induction false} DatasetBehindLibrary(s: Setting) returns (w: Pipeline, es: Path, nodes: seq<RunNode>)
    requires !s.retrain && forall k :: s.missing(k) == None
    ensures CandidateOf([w], [], |w|, es, w) && Runs(nodes, es)
    ensures Start(s, nodes) == 1 && |nodes| == 3 && nodes[2].trained && w[2].componentType == DATASET
    ensures Failure(s, nodes) == Some(Missing(FileStore.KeyError))
  {
    var v := SemanticVersion("master", 0, 0);
    w := [MetaKey(DATASET, "raw", v), MetaKey(LIBRARY, "clean", v), MetaKey(DATASET, "more", v)];
    es := Own([], w);
    nodes := RunNodes(w, es);
    assert [w][0] == w;
    EqualPipelinesSurvive([w], w);
    DatasetsOnly(s, w, es, nodes);
  }
}
