/**
 * The append-only file store: a directory for each key and branch, below it one for each version, and the name of the
 * head. Where a directory is follows from the two strings, as the file system reads them.
 */
module FileStore {
  import opened Wrappers
  import opened Paths

  datatype LibraryManifest = LibraryManifest(name: string, version: string, apiUpdated: bool, rest: string)

  /** What a stored file holds. */
  datatype Content = Text(text: string) | Archive(data: string) | Meta(manifest: LibraryManifest)

  /** A directory: the value and the parent of a version, and the head of a branch, each if there is such a file. */
  datatype Node = Node(value: Option<Content>, parent: Option<string>, head: Option<string>)

  const NO_FILES := Node(None, None, None)

  /** The directories there are. */
  type Store = map<Path, Node>

  datatype StoreError = KeyError | FileNotFound | UnicodeDecodeError

  datatype TransferDType = STRING | FILE

  function NodeAt(s: Store, p: Path): Node
  {
    if p in s then s[p] else NO_FILES
  }

  /** The directory and all above it, if they are not there yet. */
  function MakeDirs(s: Store, p: Path): (t: Store)
    ensures p in t && (forall q :: NodeAt(t, q) == NodeAt(s, q))
    ensures forall q :: q in s ==> q in t
    ensures forall q :: q in t ==> q in s || q <= p
    decreases |p|
  {
    if p in s then s
    else if p == [] then s[p := NO_FILES]
    else MakeDirs(s, p[..|p| - 1])[p := NO_FILES]
  }

  lemma {:induction false} MadeAlready(s: Store, p: Path)
    requires p in s
    ensures MakeDirs(s, p) == s
  {
  }

  /** A new version below a directory becomes its head, with the old head as its parent. */
  function PutAt(s: Store, p: Path, content: Content, h: string): Store
  {
    var t := MakeDirs(MakeDirs(s, p), p + [h]);
    t[p := t[p].(value := None, head := Some(h))][p + [h] := Node(Some(content), t[p].head, t[p + [h]].head)]
  }

  /** What a put changes: its own version, and in the directory of the branch the head and a file of that name. */
  lemma {:induction false} PutChanges(s: Store, p: Path, content: Content, h: string)
    ensures var t := PutAt(s, p, content, h);
      && p in t && t[p] == NodeAt(s, p).(value := None, head := Some(h))
      && p + [h] in t && t[p + [h]].value == Some(content) && t[p + [h]].parent == NodeAt(s, p).head
      && t[p + [h]].head == NodeAt(s, p + [h]).head
      && (forall q :: q != p && q != p + [h] ==> NodeAt(t, q) == NodeAt(s, q))
      && (forall q :: q in s ==> q in t)
      && forall q :: q in t ==> q in s || q <= p + [h]
  {
    var m := MakeDirs(s, p);
    var t := MakeDirs(m, p + [h]);
    assert |p| != |p + [h]|;
    assert forall q :: q in m ==> q in s || q <= p + [h];
    assert NodeAt(t, p) == NodeAt(m, p) == NodeAt(s, p);
    assert NodeAt(t, p + [h]) == NodeAt(m, p + [h]) == NodeAt(s, p + [h]);
    hide MakeDirs;
  }

  /** A name that no directory has, on none of the ways down to one. */
  predicate Unused(s: Store, h: string)
  {
    forall p :: p in s ==> h !in p
  }

  lemma {:induction false} StillUnused(s: Store, p: Path, content: Content, h: string, g: string)
    requires Unused(s, g) && g !in p && g != h
    ensures Unused(PutAt(s, p, content, h), g)
  {
    hide PutAt;
    PutChanges(s, p, content, h);
    forall q | q in PutAt(s, p, content, h)
      ensures g !in q
    {
      if q !in s {
        assert g !in p + [h];
        NotOnBeginning(g, q, p + [h]);
      }
    }
  }

  function FileAt(s: Store, p: Path): Result<Content, StoreError>
  {
    if p in s && s[p].value.Some? then Ok(s[p].value.value) else Err(FileNotFound)
  }

  /** The content at the head of a directory. */
  function HeadAt(s: Store, p: Path): Result<Content, StoreError>
  {
    if NodeAt(s, p).head.None? then Err(KeyError) else FileAt(s, p + [NodeAt(s, p).head.value])
  }

  lemma {:induction false} HeadOfPut(s: Store, p: Path, content: Content, h: string)
    ensures HeadAt(PutAt(s, p, content, h), p) == Ok(content)
  {
    hide PutAt;
    PutChanges(s, p, content, h);
  }

  /** A put elsewhere leaves a head alone that is at least as far down, if it does not replace the version there. */
  lemma {:induction false} HeadKept(s: Store, p: Path, content: Content, h: string, q: Path)
    requires p != q && |p| <= |q|
    ensures HeadAt(PutAt(s, p, content, h), q) == HeadAt(s, q)
  {
    hide PutAt;
    PutChanges(s, p, content, h);
    var t := PutAt(s, p, content, h);
    assert NodeAt(t, q).head == NodeAt(s, q).head;
    if NodeAt(s, q).head.Some? {
      var v := q + [NodeAt(s, q).head.value];
      OtherParent(p, q, h, NodeAt(s, q).head.value);
      assert |v| > |p| && (v <= p + [h] ==> v == p + [h]);
      assert NodeAt(t, v) == NodeAt(s, v);
    }
  }

  /** So does one further down that does not replace a version. */
  lemma {:induction false} HeadKeptAbove(s: Store, p: Path, content: Content, h: string, q: Path)
    requires |p| > |q| && NodeAt(s, p).value == None
    ensures HeadAt(PutAt(s, p, content, h), q) == HeadAt(s, q)
  {
    hide PutAt;
    PutChanges(s, p, content, h);
    var t := PutAt(s, p, content, h);
    if NodeAt(s, q).head.Some? {
      var v := q + [NodeAt(s, q).head.value];
      assert NodeAt(t, v).value == NodeAt(s, v).value;
    }
  }

  lemma {:induction false} NoHeadKept(s: Store, p: Path, content: Content, h: string, q: Path)
    requires p != q && NodeAt(s, q).head == None
    ensures NodeAt(PutAt(s, p, content, h), q).head == None
  {
    hide PutAt;
    PutChanges(s, p, content, h);
  }

  /** The name of some version. */
  ghost predicate NamesVersion(s: Store, h: string)
  {
    exists p :: p + [h] in s && s[p + [h]].value.Some?
  }

  lemma {:induction false} VersionNames(s: Store, p: Path, content: Content, h: string, x: string)
    requires NamesVersion(PutAt(s, p, content, h), x)
    ensures NamesVersion(s, x) || x == h
  {
    hide PutAt;
    PutChanges(s, p, content, h);
    var t := PutAt(s, p, content, h);
    var q :| q + [x] in t && t[q + [x]].value.Some?;
    if x != h {
      OtherEnd(q, x, p, h);
      assert NodeAt(t, q + [x]).value.Some?;
      assert NodeAt(s, q + [x]) == NodeAt(t, q + [x]);
    }
  }

  /** The directories right below one. */
  function Children(s: Store, p: Path): (ps: set<Path>)
    ensures forall q :: q in ps <==> q in s && Below(p, q)
  {
    set q | q in s && Below(p, q)
  }

  /** A version file found below some branch of the key. */
  ghost predicate FoundBelow(s: Store, k: Path, h: string)
  {
    exists p :: p in Children(s, k) && At(p, h) in s
  }

  /** Searching the branches of a key, in whatever order they are listed. */
  ghost predicate VersionIs(s: Store, k: Path, h: string, r: Result<Content, StoreError>)
  {
    if FoundBelow(s, k, h) then exists p :: p in Children(s, k) && At(p, h) in s && r == FileAt(s, At(p, h))
    else r == Err(FileNotFound)
  }

  /** A file is copied to the temporary directory, under a name that must not lead into another directory. */
  function Copied(r: Result<Content, StoreError>, name: string): Result<Content, StoreError>
  {
    if r.Ok? && !Slashless(name) then Err(FileNotFound) else r
  }

  /** Writing a file into a directory does not change which directories are still to be made. */
  lemma {:induction false} MadeBeside(s: Store, p: Path, n: Node, h: string)
    requires p in s
    ensures MakeDirs(s[p := n], p + [h]) == MakeDirs(s, p + [h])[p := n]
  {
    assert (p + [h])[..|p|] == p;
    MadeAlready(s, p);
    MadeAlready(s[p := n], p);
  }

  /** The value moved from one directory to another. */
  function Moved(s: Store, p: Path, q: Path): Store
    requires p in s && q in s
  {
    s[q := s[q].(value := s[p].value)][p := s[p].(value := None)]
  }

  class FileSystemStorage {
    const base: Path
    var store: Store

    constructor (base: Path)
      ensures store == map[] && this.base == base
    {
      this.base := base;
      store := map[];
    }

    function PathFromBranch(key: string, branch: string): Path
    {
      At(At(base, key), branch)
    }

    /** `h` is the hash of the time, the key, the branch and the content. */
    method Put(key: string, branch: string, content: Content, h: string)
      modifies this
      ensures store == PutAt(old(store), PathFromBranch(key, branch), content, h)
    {
      hide MakeDirs;
      var remoteDir := PathFromBranch(key, branch);
      var newDir := remoteDir + [h];
      assert |remoteDir| != |newDir|;
      store := MakeDirs(store, remoteDir);
      ghost var made := store;
      store := store[remoteDir := store[remoteDir].(value := Some(content))];
      ghost var t := MakeDirs(made, newDir);
      assert NodeAt(t, remoteDir) == NodeAt(made, remoteDir);
      MadeBeside(made, remoteDir, store[remoteDir], h);
      store := MakeDirs(store, newDir);
      store := Moved(store, remoteDir, newDir);
      var currentHead := store[remoteDir].head;
      store := store[newDir := store[newDir].(parent := currentHead)];
      store := store[remoteDir := store[remoteDir].(head := Some(h))];
      assert store == t[remoteDir := t[remoteDir].(value := None, head := Some(h))]
                       [newDir := Node(Some(content), t[remoteDir].head, t[newDir].head)];
    }

    method GetHead(key: string, branch: string, dtype: TransferDType) returns (r: Result<Content, StoreError>)
      ensures var head := HeadAt(store, PathFromBranch(key, branch));
        r == if dtype.FILE? then Copied(head, key + "-" + branch) else head
    {
      var dir := PathFromBranch(key, branch);
      if dir !in store || store[dir].head.None? {
        return Err(KeyError);
      }
      var filePath := dir + [store[dir].head.value];
      if filePath !in store || store[filePath].value.None? {
        return Err(FileNotFound);
      }
      if dtype.FILE? && !Slashless(key + "-" + branch) {
        return Err(FileNotFound);
      }
      return Ok(store[filePath].value.value);
    }

    /** The branches are searched in any order; `h` is a name below each of them. */
    method GetVersion(key: string, h: string) returns (r: Result<Content, StoreError>)
      ensures exists found :: VersionIs(store, At(base, key), h, found) && r == Copied(found, key + "-None")
    {
      var branches := Children(store, At(base, key));
      ghost var all := branches;
      while branches != {}
        invariant branches <= all
        invariant forall p :: p in all && p !in branches ==> At(p, h) !in store
        decreases |branches|
      {
        var p :| p in branches;
        if At(p, h) in store {
          ghost var found := FileAt(store, At(p, h));
          assert VersionIs(store, At(base, key), h, found);
          if store[At(p, h)].value.None? || !Slashless(key + "-None") {
            return Err(FileNotFound);
          }
          return Ok(store[At(p, h)].value.value);
        }
        branches := branches - {p};
      }
      assert VersionIs(store, At(base, key), h, Err(FileNotFound));
      return Err(FileNotFound);
    }
  }
}
