/** Creating library versions: the next version follows from the head of the branch, and two puts record it. */
module LibraryManager {
  import opened Wrappers
  import opened Paths
  import opened Keys
  import opened FileStore
  import opened VersionStore

  const GENERIC_LIBRARY_KEY := "library"

  /** The manifest at the head cannot be parsed, or a file or its directory is not there. */
  datatype CreateError = UnreadableVersion | FileMissing

  function LibraryKey(name: string, v: SemanticVersion): MetaKey
  {
    MetaKey(GENERIC_LIBRARY_KEY, name, v)
  }

  /** The manifest at the head of a branch of a library. */
  function Head(s: Store, base: Path, name: string, branch: string): Result<Content, StoreError>
  {
    var k := LibraryKey(name, SemanticVersion(branch, 0, 0));
    Copied(HeadAt(s, EntityDir(base, META, k)), EntityKey(META, k) + "-" + branch)
  }

  /** A value as it is read from a manifest: without white space in front; behind it, none is ever parsed. */
  function Stripped(s: string): string
  {
    if s != [] && IsSpace(s[0]) then Stripped(s[1..]) else s
  }

  /** The version of the next commit. */
  function Propose(head: Result<Content, StoreError>, apiUpdated: bool, branch: string)
    : Result<SemanticVersion, CreateError>
  {
    match head
    case Err(KeyError) => Ok(SemanticVersion(branch, 0, 0))
    case Err(_) => Err(FileMissing)
    case Ok(Meta(m)) =>
      (match ParseVersion(Stripped(m.version))
       case Err(_) => Err(UnreadableVersion)
       case Ok(v) =>
         Ok(if apiUpdated then SemanticVersion(branch, v.apiVersion + 1, 0)
            else SemanticVersion(branch, v.apiVersion, v.incVersion + 1)))
    case Ok(_) => Err(UnreadableVersion)
  }

  /** One library version in the store. */
  datatype Commit = Commit(key: MetaKey, archive: string, manifest: LibraryManifest)

  /** What is committed under a version: the manifest says which one it is. */
  function NewCommit(manifest: LibraryManifest, archive: string, v: SemanticVersion): Commit
  {
    Commit(LibraryKey(manifest.name, v), archive, manifest.(version := VersionString(v)))
  }

  /** The content hashes of the four files of a commit. */
  datatype Hashes = Hashes(archive: string, archiveVersion: string, manifest: string, manifestVersion: string)

  function Committed(s: Store, base: Path, c: Commit, hs: Hashes): Store
  {
    PutVersion(PutVersion(s, base, LIBRARY, c.key, Archive(c.archive), hs.archive, hs.archiveVersion),
               base, META, c.key, Meta(c.manifest), hs.manifest, hs.manifestVersion)
  }

  predicate FreshFor(s: Store, base: Path, k: MetaKey, h: string)
  {
    FreshHash(s, base, LIBRARY, k, h) && FreshHash(s, base, META, k, h)
  }

  /** The hashes of the commit are new, and no two of them are equal. */
  predicate FreshHashes(s: Store, base: Path, c: Commit, hs: Hashes)
  {
    && FreshFor(s, base, c.key, hs.archive) && FreshFor(s, base, c.key, hs.archiveVersion)
    && FreshFor(s, base, c.key, hs.manifest) && FreshFor(s, base, c.key, hs.manifestVersion)
    && hs.archive != hs.archiveVersion && hs.manifest != hs.manifestVersion
    && hs.manifest !in {hs.archive, hs.archiveVersion} && hs.manifestVersion !in {hs.archive, hs.archiveVersion}
  }

  /**
   * One creation: the store and the key of the new version, or the error and no change. A name with a slash leads the
   * archive into a directory that is not there.
   */
  function CreateIn(s: Store, base: Path, manifest: LibraryManifest, archive: string, branch: string, hs: Hashes)
    : (Store, Result<MetaKey, CreateError>)
  {
    match Propose(Head(s, base, manifest.name, branch), manifest.apiUpdated, branch)
    case Err(e) => (s, Err(e))
    case Ok(v) =>
      if !Slashless(manifest.name) then (s, Err(FileMissing))
      else
        var c := NewCommit(manifest, archive, v);
        (Committed(s, base, c, hs), Ok(c.key))
  }

  // ---------- Order of versions ----------

  predicate Precedes(v: SemanticVersion, w: SemanticVersion)
  {
    v.apiVersion < w.apiVersion || (v.apiVersion == w.apiVersion && v.incVersion < w.incVersion)
  }

  predicate SameLine(k: MetaKey, name: string, branch: string)
  {
    k.componentName == name && k.componentVersion.branch == branch
  }

  /** The last commit of a library on a branch. */
  function LastOf(log: seq<Commit>, name: string, branch: string): (r: Option<Commit>)
    ensures r.Some? ==> r.value in log && SameLine(r.value.key, name, branch)
    ensures r.None? ==> forall c :: c in log ==> !SameLine(c.key, name, branch)
  {
    if log == [] then None
    else if SameLine(log[|log| - 1].key, name, branch) then Some(log[|log| - 1])
    else LastOf(log[..|log| - 1], name, branch)
  }

  /**
   * A branch whose version strings are not read back with their numbers, but with those of the version that its name
   * has before white space.
   */
  predicate Misread(branch: string)
  {
    !Solid(Stripped(branch)) && ParseVersion(Stripped(branch)).Ok?
  }

  /** A branch on which versions can be read back, and with their numbers. */
  predicate Kept(branch: string)
  {
    Plain(branch) && !Misread(branch)
  }

  ghost predicate Line(log: seq<Commit>, i: nat, j: nat)
    requires i < |log| && j < |log|
  {
    && Kept(log[i].key.componentVersion.branch)
    && SameLine(log[j].key, log[i].key.componentName, log[i].key.componentVersion.branch)
  }

  /** The versions of each library on each such branch strictly increase. */
  ghost predicate Increasing(log: seq<Commit>)
  {
    forall i: nat, j: nat :: i < j < |log| && Line(log, i, j) ==>
      Precedes(log[i].key.componentVersion, log[j].key.componentVersion)
  }

  predicate Proper(c: Commit)
  {
    && c.key.componentType == GENERIC_LIBRARY_KEY && Flat(c.key) && Numbered(c.key)
    && c.manifest.version == VersionString(c.key.componentVersion)
  }

  /** Both files of a commit are on record. */
  ghost predicate InStore(s: Store, base: Path, c: Commit)
  {
    Recorded(s, base, LIBRARY, c.key, Archive(c.archive)) && Recorded(s, base, META, c.key, Meta(c.manifest))
  }

  function HeadOf(log: seq<Commit>, name: string, branch: string): Result<Content, StoreError>
  {
    var last := LastOf(log, name, branch);
    if last.Some? then Ok(Meta(last.value.manifest)) else Err(KeyError)
  }

  const GENERIC_DATASET_KEY := "dataset"

  /** The storage of libraries has no mapping for a dataset. */
  ghost predicate LibrariesOnly(s: Store, base: Path)
  {
    forall k: MetaKey :: k.componentType == GENERIC_DATASET_KEY && Flat(k) && Plain(k.componentVersion.branch) ==>
      NodeAt(s, VersionDir(base, LIBRARY, k)).head == None
  }

  /** Whatever was committed on branches that are kept is there, in the right order, and at the heads. */
  ghost predicate Inv(s: Store, base: Path, log: seq<Commit>)
  {
    && Increasing(log)
    && (forall c :: c in log && Kept(c.key.componentVersion.branch) ==> Proper(c) && InStore(s, base, c))
    && (forall name, branch :: Slashless(name) && Kept(branch) ==>
          Head(s, base, name, branch) == HeadOf(log, name, branch))
    && LibrariesOnly(s, base)
  }

  // ---------- Reading back the version of the head ----------

  lemma {:induction false} DigitsBeforeSpace(b: string, rest: string, i: nat)
    requires i <= SolidEnd(b, 0) < |b|
    ensures DigitsEnd(b + rest, i) == DigitsEnd(b, i) <= SolidEnd(b, 0)
    decreases SolidEnd(b, 0) - i
  {
    if i < SolidEnd(b, 0) {
      DigitsBeforeSpace(b, rest, i + 1);
    }
  }

  lemma {:induction false} SolidBeforeSpace(b: string, rest: string, i: nat)
    requires i <= SolidEnd(b, 0) < |b|
    ensures SolidEnd(b + rest, i) == SolidEnd(b, 0)
    decreases SolidEnd(b, 0) - i
  {
    hide DigitsEnd;
    var e := SolidEnd(b, 0);
    assert (b + rest)[e] == b[e];
    if i < e {
      assert !IsSpace(b[i]);
      SolidBeforeSpace(b, rest, i + 1);
    }
  }

  lemma {:induction false} NumbersBeforeSpace(b: string, rest: string, k: nat)
    requires k <= SolidEnd(b, 0) < |b|
    ensures NumbersAt(b + rest, k) <==> NumbersAt(b, k)
  {
    hide SolidEnd, DigitsEnd;
    var e := SolidEnd(b, 0);
    assert IsSpace(b[e]) && b[e] != '.';
    if k < e && b[k] == '.' {
      DigitsBeforeSpace(b, rest, k + 1);
      var d := DigitsEnd(b, k + 1);
      if d < e && b[d] == '.' {
        DigitsBeforeSpace(b, rest, d + 1);
      }
    }
  }

  lemma {:induction false} VersionBeforeSpace(b: string, rest: string, k: nat)
    requires k <= SolidEnd(b, 0) < |b| && NumbersAt(b, k) && NumbersAt(b + rest, k)
    ensures VersionBetween(b + rest, 0, k) == VersionBetween(b, 0, k)
  {
    hide SolidEnd, Number, DigitsEnd;
    var s, e := b + rest, SolidEnd(b, 0);
    assert IsSpace(b[e]) && b[e] != '.';
    DigitsBeforeSpace(b, rest, k + 1);
    var d := DigitsEnd(b, k + 1);
    DigitsBeforeSpace(b, rest, d + 1);
    var f := DigitsEnd(b, d + 1);
    assert s[0..k] == b[0..k] && s[k + 1..d] == b[k + 1..d] && s[d + 1..f] == b[d + 1..f];
  }

  /** What follows white space is never read. */
  lemma {:induction false} ParseStopsAtSpace(b: string, rest: string)
    requires !Solid(b)
    ensures ParseVersion(b + rest) == ParseVersion(b)
  {
    hide NumbersAt, VersionBetween, BranchEnd;
    assert SolidEnd(b, 0) < |b|;
    SolidBeforeSpace(b, rest, 0);
    forall k: nat | k <= SolidEnd(b, 0)
      ensures NumbersAt(b + rest, k) <==> NumbersAt(b, k)
    {
      NumbersBeforeSpace(b, rest, k);
    }
    hide SolidEnd;
    assert BranchEnd(b + rest, 0) == BranchEnd(b, 0);
    if BranchEnd(b, 0).Some? {
      VersionBeforeSpace(b, rest, BranchEnd(b, 0).value);
    }
  }

  lemma {:induction false} StrippedVersion(v: SemanticVersion)
    ensures Stripped(VersionString(v)) == VersionString(v.(branch := Stripped(v.branch)))
    decreases |v.branch|
  {
    hide IntString;
    if v.branch == [] {
      assert VersionString(v)[0] == '.';
    } else {
      assert VersionString(v)[0] == v.branch[0];
      if IsSpace(v.branch[0]) {
        var w := v.(branch := v.branch[1..]);
        assert VersionString(v)[1..] == VersionString(w);
        StrippedVersion(w);
      }
    }
  }

  lemma {:induction false} SpacedVersion(v: SemanticVersion)
    requires !Solid(v.branch)
    ensures ParseVersion(VersionString(v)) == ParseVersion(v.branch)
  {
    hide ParseVersion, IntString;
    var rest := "." + IntString(v.apiVersion) + "." + IntString(v.incVersion);
    assert VersionString(v) == v.branch + rest;
    ParseStopsAtSpace(v.branch, rest);
  }

  lemma {:induction false} BranchlessVersion(v: SemanticVersion)
    requires v.branch == [] && v.apiVersion >= 0 && v.incVersion >= 0
    ensures ParseVersion(VersionString(v)).Err?
  {
    hide Decimal, NumbersAt, VersionBetween;
    PrintedNumbers([], v.apiVersion, v.incVersion);
    assert VersionString(v) == [] + "." + Decimal(v.apiVersion) + "." + Decimal(v.incVersion);
  }

  /** The version of a head is read back as it was written but for white space in front, or not at all. */
  lemma {:induction false} VersionReadBack(v: SemanticVersion)
    requires !Misread(v.branch) && v.apiVersion >= 0 && v.incVersion >= 0
    ensures var r := ParseVersion(Stripped(VersionString(v)));
      r == Ok(v.(branch := Stripped(v.branch))) || r.Err?
  {
    hide ParseVersion, VersionString, Decimal, Stripped;
    StrippedVersion(v);
    var w := v.(branch := Stripped(v.branch));
    VersionRoundTrip(w);
    if !Solid(w.branch) {
      SpacedVersion(w);
    } else if w.branch == [] {
      BranchlessVersion(w);
    }
  }

  /** On a misread branch, what is proposed does not depend on the version of the head. */
  lemma {:induction false} MisreadProposal(
    v: SemanticVersion, w: SemanticVersion, m: LibraryManifest, n: LibraryManifest)
    requires Misread(v.branch) && w.branch == v.branch
    requires m.version == VersionString(v) && n.version == VersionString(w)
    ensures Propose(Ok(Meta(m)), false, v.branch) == Propose(Ok(Meta(n)), false, v.branch)
    ensures Propose(Ok(Meta(m)), false, v.branch).Ok?
  {
    hide ParseVersion, VersionString, Stripped;
    StrippedVersion(v);
    StrippedVersion(w);
    SpacedVersion(v.(branch := Stripped(v.branch)));
    SpacedVersion(w.(branch := Stripped(w.branch)));
  }

  lemma {:induction false} HeadIs(s: Store, base: Path, name: string, branch: string)
    requires Slashless(name) && Plain(branch)
    ensures var k := LibraryKey(name, SemanticVersion(branch, 0, 0));
      Head(s, base, name, branch) == HeadAt(s, base + [EntityKey(META, k), branch])
  {
    hide EntityDir, HeadAt, EntityKey;
    var k := LibraryKey(name, SemanticVersion(branch, 0, 0));
    Places(base, META, k);
    EntityKeyPlain(META, k);
    SlashlessJoin(EntityKey(META, k), "-");
    SlashlessJoin(EntityKey(META, k) + "-", branch);
  }

  lemma {:induction false} SameEntity(prefix: string, k: MetaKey, l: MetaKey)
    requires Known(prefix) && k.componentType == l.componentType
    ensures EntityKey(prefix, k) == EntityKey(META, l) <==> prefix == META && k.componentName == l.componentName
  {
    if EntityKey(prefix, k) == EntityKey(META, l) {
      EntityKeysDiffer(prefix, META, k, l);
    }
  }

  lemma {:induction false} HeadAfterNested(s: Store, base: Path, prefix: string, k: MetaKey, content: Content,
                                           h: string, g: string, name: string, branch: string)
    requires Known(prefix) && Slashless(k.componentType) && Slashless(k.componentName)
    requires Nested(s, k.componentVersion.branch) && FreshHash(s, base, prefix, k, h)
    requires Slashless(name) && Plain(branch)
    ensures Head(PutVersion(s, base, prefix, k, content, h, g), base, name, branch) == Head(s, base, name, branch)
    ensures k.componentVersion.branch != branch
  {
    hide VersionKey, EntityKey, HeadAt, PutAt, Head, EntityDir, VersionDir, NamesVersion, Unused, Parts;
    var own, e, v := k.componentVersion.branch, EntityDir(base, prefix, k), VersionDir(base, prefix, k);
    var d := base + [EntityKey(META, LibraryKey(name, SemanticVersion(branch, 0, 0))), branch];
    HeadIs(s, base, name, branch);
    HeadIs(PutVersion(s, base, prefix, k, content, h, g), base, name, branch);
    NestedEntity(base, prefix, k);
    var front := NestedMapping(base, prefix, k);
    NestedPut(s, base, [EntityKey(prefix, k)], own, e);
    HeadKeptAbove(s, e, content, h, d);
    assert h !in Parts(own);
    StillNested(s, own, e, content, h);
    var t := PutAt(s, e, content, h);
    NestedPut(t, base, front, own, v);
    HeadKeptAbove(t, v, Text(h), g, d);
    PartsOfSlashless(branch);
  }

  /** The head of a named branch after one more version in one of the storages. */
  lemma {:induction false} HeadAfterPut(s: Store, base: Path, prefix: string, c: Commit, content: Content, h: string,
                                        g: string, name: string, branch: string)
    requires Known(prefix) && c.key.componentType == GENERIC_LIBRARY_KEY && Apart(s, c.key)
    requires FreshHash(s, base, prefix, c.key, h) || Slashless(c.key.componentVersion.branch)
    requires Slashless(name) && Plain(branch)
    ensures Head(PutVersion(s, base, prefix, c.key, content, h, g), base, name, branch)
         == if prefix == META && SameLine(c.key, name, branch) then Ok(content) else Head(s, base, name, branch)
  {
    hide VersionKey, EntityKey, HeadAt, PutAt, Head, EntityDir, VersionDir, Plain, Slashless, Nested;
    if !Slashless(c.key.componentVersion.branch) {
      HeadAfterNested(s, base, prefix, c.key, content, h, g, name, branch);
      return;
    }
    var k := LibraryKey(name, SemanticVersion(branch, 0, 0));
    var e, v := EntityDir(base, prefix, c.key), VersionDir(base, prefix, c.key);
    var own := c.key.componentVersion.branch;
    var d := base + [EntityKey(META, k), branch];
    HeadIs(s, base, name, branch);
    HeadIs(PutVersion(s, base, prefix, c.key, content, h, g), base, name, branch);
    Places(base, prefix, c.key);
    EntitiesAreNotVersions(META, prefix, k, c.key);
    SecondLast(base, VersionKey(prefix, c.key), own, EntityKey(META, k), branch);
    SecondLast(base, EntityKey(prefix, c.key), own, EntityKey(META, k), branch);
    SameEntity(prefix, c.key, k);
    assert v != d;
    HeadKept(PutAt(s, e, content, h), v, Text(h), g, d);
    if e == d {
      HeadOfPut(s, e, content, h);
    } else {
      HeadKept(s, e, content, h, d);
    }
  }

  lemma {:induction false} FreshLater(s: Store, base: Path, c: Commit, hs: Hashes, h: string)
    requires FreshHashes(s, base, c, hs) && h in {hs.manifest, hs.manifestVersion}
    ensures var t := PutVersion(s, base, LIBRARY, c.key, Archive(c.archive), hs.archive, hs.archiveVersion);
      FreshHash(t, base, META, c.key, h)
  {
    hide PutAt, Unused, EntityDir, VersionDir, Plain;
    var e, v := EntityDir(base, LIBRARY, c.key), VersionDir(base, LIBRARY, c.key);
    StillUnused(s, e, Archive(c.archive), hs.archive, h);
    StillUnused(PutAt(s, e, Archive(c.archive), hs.archive), v, Text(hs.archive), hs.archiveVersion, h);
  }

  lemma {:induction false} NotInParts(s: Store, base: Path, prefix: string, k: MetaKey, h: string)
    requires Known(prefix) && Apart(s, k) && Nested(s, k.componentVersion.branch) && FreshHash(s, base, prefix, k, h)
    ensures h !in Parts(k.componentVersion.branch)
  {
    hide Parts, EntityKey, EntityDir, VersionDir, NamesVersion, Unused;
    NestedEntity(base, prefix, k);
  }

  lemma {:induction false} StillApart(s: Store, base: Path, prefix: string, k: MetaKey, content: Content, h: string,
                                      g: string)
    requires Known(prefix) && Apart(s, k)
    requires Slashless(k.componentVersion.branch)
             || (FreshHash(s, base, prefix, k, h) && FreshHash(s, base, prefix, k, g))
    ensures Apart(PutVersion(s, base, prefix, k, content, h, g), k)
  {
    hide PutAt, Nested, EntityDir, VersionDir, Unused;
    var branch := k.componentVersion.branch;
    if !Slashless(branch) {
      NotInParts(s, base, prefix, k, h);
      NotInParts(s, base, prefix, k, g);
      StillNested(s, branch, EntityDir(base, prefix, k), content, h);
      StillNested(PutAt(s, EntityDir(base, prefix, k), content, h), branch, VersionDir(base, prefix, k), Text(h), g);
    }
  }

  lemma {:induction false} HeadAfterCommit(s: Store, base: Path, c: Commit, hs: Hashes, name: string, branch: string)
    requires c.key.componentType == GENERIC_LIBRARY_KEY && Slashless(name) && Plain(branch) && Apart(s, c.key)
    requires Flat(c.key) || FreshHashes(s, base, c, hs)
    ensures Head(Committed(s, base, c, hs), base, name, branch)
         == if SameLine(c.key, name, branch) then Ok(Meta(c.manifest)) else Head(s, base, name, branch)
  {
    hide PutVersion, Head, Nested, FreshHash;
    var s2 := PutVersion(s, base, LIBRARY, c.key, Archive(c.archive), hs.archive, hs.archiveVersion);
    if !Flat(c.key) {
      FreshLater(s, base, c, hs, hs.manifest);
    }
    StillApart(s, base, LIBRARY, c.key, Archive(c.archive), hs.archive, hs.archiveVersion);
    HeadAfterPut(s, base, LIBRARY, c, Archive(c.archive), hs.archive, hs.archiveVersion, name, branch);
    HeadAfterPut(s2, base, META, c, Meta(c.manifest), hs.manifest, hs.manifestVersion, name, branch);
  }

  lemma {:induction false} HeadAfterCreate(
    s: Store, base: Path, manifest: LibraryManifest, archive: string, branch: string, hs: Hashes)
    requires Slashless(manifest.name) && Plain(branch)
    requires Propose(Head(s, base, manifest.name, branch), manifest.apiUpdated, branch).Ok?
    ensures var v := Propose(Head(s, base, manifest.name, branch), manifest.apiUpdated, branch).value;
      && v.branch == branch
      && Head(CreateIn(s, base, manifest, archive, branch, hs).0, base, manifest.name, branch)
         == Ok(Meta(manifest.(version := VersionString(v))))
  {
    hide Head, Committed, VersionString, ParseVersion;
    assert Slashless(GENERIC_LIBRARY_KEY);
    var v := Propose(Head(s, base, manifest.name, branch), manifest.apiUpdated, branch).value;
    HeadAfterCommit(s, base, NewCommit(manifest, archive, v), hs, manifest.name, branch);
  }

  /** Three creations of a library on a misread branch, the last two without an API update: these get the same key. */
  lemma {:induction false} MisreadRepeats(
    s: Store, base: Path, branch: string, m1: LibraryManifest, m2: LibraryManifest, m3: LibraryManifest,
    archives: seq<string>, hs: seq<Hashes>)
    requires Misread(branch) && |archives| == |hs| == 3 && Plain(branch) && Slashless(m1.name)
    requires m1.name == m2.name == m3.name && !m2.apiUpdated && !m3.apiUpdated
    requires Head(s, base, m1.name, branch) == Err(KeyError)
    ensures var (s1, r1) := CreateIn(s, base, m1, archives[0], branch, hs[0]);
      var (s2, r2) := CreateIn(s1, base, m2, archives[1], branch, hs[1]);
      var (s3, r3) := CreateIn(s2, base, m3, archives[2], branch, hs[2]);
      r1.Ok? && r2.Ok? && r3 == r2
  {
    hide Head, VersionString, ParseVersion, Committed, Misread, Stripped;
    var s1 := CreateIn(s, base, m1, archives[0], branch, hs[0]).0;
    HeadAfterCreate(s, base, m1, archives[0], branch, hs[0]);
    var v1 := Propose(Head(s, base, m1.name, branch), m1.apiUpdated, branch).value;
    MisreadProposal(v1, v1, m1.(version := VersionString(v1)), m1.(version := VersionString(v1)));
    HeadAfterCreate(s1, base, m2, archives[1], branch, hs[1]);
    var v2 := Propose(Head(s1, base, m1.name, branch), false, branch).value;
    MisreadProposal(v1, v2, m1.(version := VersionString(v1)), m2.(version := VersionString(v2)));
  }

  lemma {:induction false} MisreadExample()
    ensures Misread("a.1.2 b") && Misread(" a.1.2 b")
  {
    var s := "a.1.2 b";
    assert s[5] == ' ' && IsSpace(s[5]);
    assert s[1] == '.' && s[3] == '.' && IsDigit(s[2]) && IsDigit(s[4]);
    assert DigitsEnd(s, 2) == 3 && DigitsEnd(s, 4) == 5;
    assert NumbersAt(s, 1);
    assert SolidEnd(s, 0) >= 1;
    assert Stripped(s) == s;
    assert " a.1.2 b"[1..] == s;
  }

  // ---------- Every commit keeps the invariant ----------

  lemma {:induction false} LastIndex(log: seq<Commit>, name: string, branch: string, i: nat) returns (j: nat)
    requires i < |log| && SameLine(log[i].key, name, branch)
    ensures i <= j < |log| && SameLine(log[j].key, name, branch) && LastOf(log, name, branch) == Some(log[j])
  {
    var m := |log| - 1;
    if SameLine(log[m].key, name, branch) {
      j := m;
    } else {
      j := LastIndex(log[..m], name, branch, i);
    }
  }

  lemma {:induction false} LastIsGreatest(log: seq<Commit>, i: nat)
    requires Increasing(log) && i < |log| && Kept(log[i].key.componentVersion.branch)
    ensures var name, branch := log[i].key.componentName, log[i].key.componentVersion.branch;
      var last := LastOf(log, name, branch);
      && last.Some?
      && (log[i].key.componentVersion == last.value.key.componentVersion
          || Precedes(log[i].key.componentVersion, last.value.key.componentVersion))
  {
    var name, branch := log[i].key.componentName, log[i].key.componentVersion.branch;
    var j := LastIndex(log, name, branch, i);
    assert Line(log, i, j);
  }

  lemma {:induction false} StillIncreasing(log: seq<Commit>, c: Commit)
    requires Increasing(log)
    requires var last := LastOf(log, c.key.componentName, c.key.componentVersion.branch);
      Kept(c.key.componentVersion.branch) && last.Some? ==>
        Precedes(last.value.key.componentVersion, c.key.componentVersion)
    ensures Increasing(log + [c])
  {
    hide LastOf;
    var all := log + [c];
    forall i: nat, j: nat | i < j < |all| && Line(all, i, j)
      ensures Precedes(all[i].key.componentVersion, all[j].key.componentVersion)
    {
      if j < |log| {
        assert Line(log, i, j);
      } else {
        LastIsGreatest(log, i);
      }
    }
  }

  /** The proposed version comes after all versions of its line. */
  lemma {:induction false} ProposedIsNew(s: Store, base: Path, log: seq<Commit>, name: string, branch: string,
                                         apiUpdated: bool)
    requires Inv(s, base, log) && Slashless(name) && Plain(branch) && !Misread(branch)
    requires Propose(Head(s, base, name, branch), apiUpdated, branch).Ok?
    ensures var v := Propose(Head(s, base, name, branch), apiUpdated, branch).value;
      var last := LastOf(log, name, branch);
      && v.branch == branch && v.apiVersion >= 0 && v.incVersion >= 0
      && if last.None? then v == SemanticVersion(branch, 0, 0)
         else
           var u := last.value.key.componentVersion;
           Precedes(u, v)
           && v == if apiUpdated then SemanticVersion(branch, u.apiVersion + 1, 0)
                   else SemanticVersion(branch, u.apiVersion, u.incVersion + 1)
  {
    hide ParseVersion, VersionString, LastOf, InStore, Increasing, Head, Misread, Stripped, Plain, Slashless;
    var last := LastOf(log, name, branch);
    if last.Some? {
      VersionReadBack(last.value.key.componentVersion);
    }
  }

  /** A commit can be read from the store if and only if its branch has a name. */
  lemma {:induction false} CommittedInStore(s: Store, base: Path, c: Commit, hs: Hashes)
    requires FreshHashes(s, base, c, hs) && Flat(c.key)
    ensures InStore(Committed(s, base, c, hs), base, c) <==> Plain(c.key.componentVersion.branch)
  {
    hide Recorded, PutVersion, FreshHash, Slashless, Nested, Plain;
    var s2 := PutVersion(s, base, LIBRARY, c.key, Archive(c.archive), hs.archive, hs.archiveVersion);
    FreshLater(s, base, c, hs, hs.manifest);
    FreshLater(s, base, c, hs, hs.manifestVersion);
    NamedBranchesFound(s, base, LIBRARY, c.key, Archive(c.archive), hs.archive, hs.archiveVersion);
    NamedBranchesFound(s2, base, META, c.key, Meta(c.manifest), hs.manifest, hs.manifestVersion);
    if Plain(c.key.componentVersion.branch) {
      OtherVersionKept(s2, base, META, c.key, Meta(c.manifest), hs.manifest, hs.manifestVersion, LIBRARY, c.key,
          Archive(c.archive));
    }
  }

  lemma {:induction false} OthersInStore(s: Store, base: Path, c: Commit, hs: Hashes, e: Commit)
    requires FreshHashes(s, base, c, hs) && InStore(s, base, e) && c.key != e.key && Apart(s, c.key)
    requires c.key.componentType == e.key.componentType && Numbered(c.key) && Numbered(e.key)
    requires Flat(e.key) && Plain(e.key.componentVersion.branch)
    ensures InStore(Committed(s, base, c, hs), base, e)
  {
    hide Recorded, PutVersion, FreshHash, Flat, Plain, Apart;
    StillApart(s, base, LIBRARY, c.key, Archive(c.archive), hs.archive, hs.archiveVersion);
    var s2 := PutVersion(s, base, LIBRARY, c.key, Archive(c.archive), hs.archive, hs.archiveVersion);
    FreshLater(s, base, c, hs, hs.manifest);
    FreshLater(s, base, c, hs, hs.manifestVersion);
    OtherVersionKept(s, base, LIBRARY, c.key, Archive(c.archive), hs.archive, hs.archiveVersion, LIBRARY, e.key,
        Archive(e.archive));
    OtherVersionKept(s, base, LIBRARY, c.key, Archive(c.archive), hs.archive, hs.archiveVersion, META, e.key,
        Meta(e.manifest));
    OtherVersionKept(s2, base, META, c.key, Meta(c.manifest), hs.manifest, hs.manifestVersion, LIBRARY, e.key,
        Archive(e.archive));
    OtherVersionKept(s2, base, META, c.key, Meta(c.manifest), hs.manifest, hs.manifestVersion, META, e.key,
        Meta(e.manifest));
  }

  /** What a commit has to be so that it follows on what is there: for a branch that is kept, the next version. */
  ghost predicate Follows(s: Store, log: seq<Commit>, c: Commit)
  {
    && c.key.componentType == GENERIC_LIBRARY_KEY && Apart(s, c.key) && Numbered(c.key)
    && (Kept(c.key.componentVersion.branch) ==>
          && Proper(c)
          && var last := LastOf(log, c.key.componentName, c.key.componentVersion.branch);
             last.Some? ==> Precedes(last.value.key.componentVersion, c.key.componentVersion))
  }

  lemma {:induction false} KeysDiffer(s: Store, log: seq<Commit>, c: Commit, e: Commit)
    requires Increasing(log) && e in log && Kept(e.key.componentVersion.branch) && Follows(s, log, c)
    ensures e.key != c.key
  {
    hide LastOf, Increasing, Kept, VersionString, Apart;
    if e.key == c.key {
      var i: nat :| i < |log| && log[i] == e;
      LastIsGreatest(log, i);
    }
  }

  lemma {:induction false} LastOfMore(log: seq<Commit>, c: Commit, name: string, branch: string)
    ensures LastOf(log + [c], name, branch)
         == if SameLine(c.key, name, branch) then Some(c) else LastOf(log, name, branch)
  {
    assert (log + [c])[..|log|] == log;
  }

  lemma {:induction false} OtherTypes(prefix: string, k: MetaKey, l: MetaKey)
    requires Known(prefix) && k.componentType == GENERIC_LIBRARY_KEY && l.componentType == GENERIC_DATASET_KEY
    ensures VersionKey(prefix, k) != VersionKey(LIBRARY, l)
  {
    hide VersionKey;
    assert KeyString(k)[0] == 'l' && KeyString(l)[0] == 'd';
    if VersionKey(prefix, k) == VersionKey(LIBRARY, l) {
      VersionKeysDiffer(prefix, LIBRARY, k, l);
    }
  }

  /** A library goes to other directories than the mapping of a dataset would. */
  lemma {:induction false} OtherDirs(s: Store, base: Path, prefix: string, k: MetaKey, l: MetaKey)
    requires Known(prefix) && k.componentType == GENERIC_LIBRARY_KEY && Apart(s, k)
    requires l.componentType == GENERIC_DATASET_KEY && Flat(l) && Plain(l.componentVersion.branch)
    ensures VersionDir(base, LIBRARY, l) !in {EntityDir(base, prefix, k), VersionDir(base, prefix, k)}
  {
    hide EntityKey, VersionKey, EntityDir, VersionDir, KeyDir, KeyString, Plain, NamesVersion, Parts;
    var own, branch := k.componentVersion.branch, l.componentVersion.branch;
    Places(base, LIBRARY, l);
    if Slashless(own) {
      Places(base, prefix, k);
      EntitiesAreNotVersions(prefix, LIBRARY, k, l);
      SecondLast(base, EntityKey(prefix, k), own, VersionKey(LIBRARY, l), branch);
      SecondLast(base, VersionKey(prefix, k), own, VersionKey(LIBRARY, l), branch);
      OtherTypes(prefix, k, l);
    } else {
      NestedEntity(base, prefix, k);
      var front := NestedMapping(base, prefix, k);
    }
  }

  lemma {:induction false} StillLibrariesOnly(s: Store, base: Path, c: Commit, hs: Hashes)
    requires LibrariesOnly(s, base) && c.key.componentType == GENERIC_LIBRARY_KEY && Apart(s, c.key)
    ensures LibrariesOnly(Committed(s, base, c, hs), base)
  {
    hide PutAt, EntityDir, VersionDir, Apart, Plain, Flat;
    forall k: MetaKey | k.componentType == GENERIC_DATASET_KEY && Flat(k) && Plain(k.componentVersion.branch)
      ensures NodeAt(Committed(s, base, c, hs), VersionDir(base, LIBRARY, k)).head == None
    {
      var d := VersionDir(base, LIBRARY, k);
      OtherDirs(s, base, LIBRARY, c.key, k);
      OtherDirs(s, base, META, c.key, k);
      var e1, v1 := EntityDir(base, LIBRARY, c.key), VersionDir(base, LIBRARY, c.key);
      var e2, v2 := EntityDir(base, META, c.key), VersionDir(base, META, c.key);
      var s1 := PutAt(s, e1, Archive(c.archive), hs.archive);
      var s2 := PutAt(s1, v1, Text(hs.archive), hs.archiveVersion);
      var s3 := PutAt(s2, e2, Meta(c.manifest), hs.manifest);
      NoHeadKept(s, e1, Archive(c.archive), hs.archive, d);
      NoHeadKept(s1, v1, Text(hs.archive), hs.archiveVersion, d);
      NoHeadKept(s2, e2, Meta(c.manifest), hs.manifest, d);
      NoHeadKept(s3, v2, Text(hs.manifest), hs.manifestVersion, d);
    }
  }

  /**
   * Every commit, on any branch without slashes or of several directories, keeps the order and the record of all
   * versions on branches that are kept, and adds itself to them if its own branch is.
   */
  lemma {:induction false} CommitKeepsInv(s: Store, base: Path, log: seq<Commit>, c: Commit, hs: Hashes)
    requires Inv(s, base, log) && Follows(s, log, c) && FreshHashes(s, base, c, hs)
    ensures Inv(Committed(s, base, c, hs), base, log + [c])
  {
    hide InStore, Increasing, FreshHashes, Misread, VersionString, Committed, Head, Plain, Slashless, LastOf;
    hide LibrariesOnly, Nested;
    var t, all := Committed(s, base, c, hs), log + [c];
    StillIncreasing(log, c);
    if Flat(c.key) {
      CommittedInStore(s, base, c, hs);
    }
    forall e | e in log && Kept(e.key.componentVersion.branch)
      ensures InStore(t, base, e)
    {
      KeysDiffer(s, log, c, e);
      OthersInStore(s, base, c, hs, e);
    }
    assert forall e :: e in all <==> e in log || e == c;
    forall name, branch | Slashless(name) && Kept(branch)
      ensures Head(t, base, name, branch) == HeadOf(all, name, branch)
    {
      HeadAfterCommit(s, base, c, hs, name, branch);
      LastOfMore(log, c, name, branch);
    }
    StillLibrariesOnly(s, base, c, hs);
  }

  // ---------- Branches that are no name of a directory ----------

  /** What was created on a branch without a name cannot be read back: its manifest is missing, right from the start. */
  lemma {:induction false} UnnamedBranchLost(s: Store, base: Path, c: Commit, hs: Hashes)
    requires FreshHashes(s, base, c, hs) && Flat(c.key)
    requires !Plain(c.key.componentVersion.branch)
    ensures var t := Committed(s, base, c, hs);
      && !InStore(t, base, c)
      && HeadAt(t, VersionDir(base, META, c.key)) == Ok(Text(hs.manifest))
      && !FoundBelow(t, KeyDir(base, META, c.key), hs.manifest)
  {
    hide Recorded, PutVersion, FreshHash, InStore, HeadAt, KeyDir, At, VersionDir;
    var s2 := PutVersion(s, base, LIBRARY, c.key, Archive(c.archive), hs.archive, hs.archiveVersion);
    CommittedInStore(s, base, c, hs);
    FreshLater(s, base, c, hs, hs.manifest);
    FreshLater(s, base, c, hs, hs.manifestVersion);
    OwnVersionFound(s2, base, META, c.key, Meta(c.manifest), hs.manifest, hs.manifestVersion);
    BelowByOneName(KeyDir(base, META, c.key), c.key.componentVersion.branch);
  }

  lemma {:induction false} HeadStays(s: Store, base: Path, c: Commit, hs: Hashes)
    ensures NodeAt(Committed(s, base, c, hs), EntityDir(base, META, c.key)).head.Some?
  {
    hide PutAt, EntityDir, VersionDir;
    var s2 := PutVersion(s, base, LIBRARY, c.key, Archive(c.archive), hs.archive, hs.archiveVersion);
    var e, v := EntityDir(base, META, c.key), VersionDir(base, META, c.key);
    PutChanges(s2, e, Meta(c.manifest), hs.manifest);
    PutChanges(PutAt(s2, e, Meta(c.manifest), hs.manifest), v, Text(hs.manifest), hs.manifestVersion);
  }

  lemma {:induction false} SameDirs(base: Path, k: MetaKey, l: MetaKey)
    requires k.componentType == l.componentType && k.componentName == l.componentName
    requires k.componentVersion.branch == l.componentVersion.branch
    ensures EntityDir(base, META, k) == EntityDir(base, META, l)
  {
  }

  lemma {:induction false} HeadThere(s: Store, p: Path)
    requires NodeAt(s, p).head.Some?
    ensures HeadAt(s, p) != Err(KeyError) && HeadAt(s, p) != Err(UnicodeDecodeError)
  {
  }

  /** On a branch with a slash, nothing can be created after the first version: the head cannot be copied. */
  lemma {:induction false} SlashedBranchFails(s: Store, base: Path, m1: LibraryManifest, m2: LibraryManifest,
                                              archives: seq<string>, branch: string, hs: seq<Hashes>)
    requires !Slashless(branch) && m1.name == m2.name && |archives| == |hs| == 2
    requires CreateIn(s, base, m1, archives[0], branch, hs[0]).1.Ok?
    ensures var t := CreateIn(s, base, m1, archives[0], branch, hs[0]).0;
      CreateIn(t, base, m2, archives[1], branch, hs[1]) == (t, Err(FileMissing))
  {
    hide Committed, ParseVersion, Stripped, EntityKey, Slashless, HeadAt;
    var v := Propose(Head(s, base, m1.name, branch), m1.apiUpdated, branch).value;
    var c := NewCommit(m1, archives[0], v);
    var t := Committed(s, base, c, hs[0]);
    var k := LibraryKey(m1.name, SemanticVersion(branch, 0, 0));
    HeadStays(s, base, c, hs[0]);
    SameDirs(base, c.key, k);
    HeadThere(t, EntityDir(base, META, k));
    SlashlessJoin(EntityKey(META, k) + "-", branch);
  }

  lemma {:induction false} SlashedParts()
    ensures var b := "feature/x";
      !Slashless(b) && b[0] != '/' && Parts(b) == ["feature", "x"]
  {
    hide Parts;
    assert Plain("feature") && Plain("x") by {
      assert |"feature"| == 7 && "x"[0] == 'x';
    }
    PartsOfTwo("feature", "x");
    assert "feature" + "/" + "x" == "feature/x";
  }

  lemma {:induction false} SlashedPath(p: Path)
    ensures !Slashless("feature/x") && At(p, "feature/x") == p + ["feature", "x"]
  {
    hide Parts, Walk;
    SlashedParts();
    WalkDown(p, Parts("feature/x"));
  }

  lemma {:induction false} TwoParts(a: string, b: string)
    ensures forall x :: x in [a, b] <==> x == a || x == b
  {
  }

  lemma {:induction false} SlashedIsNested(s: Store)
    ensures Nested(s, "feature/x") <==> !NamesVersion(s, "feature") && !NamesVersion(s, "x")
  {
    hide NamesVersion, Parts;
    SlashedParts();
    TwoParts("feature", "x");
  }

  /** On a branch such as this one, not even the first version can be read back. */
  lemma {:induction false} SlashedExample(s: Store, base: Path, prefix: string, k: MetaKey, content: Content, h: string,
                                          g: string)
    requires FreshHash(s, base, prefix, k, h) && FreshHash(s, base, prefix, k, g) && h != g
    requires k.componentVersion.branch == "feature/x"
    ensures var t := PutVersion(s, base, prefix, k, content, h, g);
      !Recorded(t, base, prefix, k, content) && !FoundBelow(t, KeyDir(base, prefix, k), h)
  {
    hide PutVersion, At, KeyDir, FreshHash, Recorded, FoundBelow;
    OwnVersionFound(s, base, prefix, k, content, h, g);
    SlashedPath(KeyDir(base, prefix, k));
  }

  // ---------- The manager ----------

  lemma {:induction false} CommittedIs(s: Store, base: Path, c: Commit, hs: Hashes)
    ensures Committed(s, base, c, hs)
         == PutVersion(PutVersion(s, base, LIBRARY, c.key, Archive(c.archive), hs.archive, hs.archiveVersion),
                       base, META, c.key, Meta(c.manifest), hs.manifest, hs.manifestVersion)
  {
  }

  lemma {:induction false} ProposedNumbers(head: Result<Content, StoreError>, apiUpdated: bool, branch: string)
    requires Propose(head, apiUpdated, branch).Ok?
    ensures var v := Propose(head, apiUpdated, branch).value;
      v.branch == branch && v.apiVersion >= 0 && v.incVersion >= 0
  {
    hide BranchEnd, NumbersAt, Stripped, DigitsEnd;
  }

  lemma {:induction false} NextCommit(s: Store, base: Path, log: seq<Commit>, manifest: LibraryManifest,
                                      archive: string, branch: string, c: Commit, hs: Hashes)
    requires Inv(s, base, log) && (Slashless(branch) || Nested(s, branch))
    requires Slashless(manifest.name) && FreshHashes(s, base, c, hs)
    requires var v := Propose(Head(s, base, manifest.name, branch), manifest.apiUpdated, branch);
      v.Ok? && c == NewCommit(manifest, archive, v.value)
    ensures Inv(Committed(s, base, c, hs), base, log + [c])
  {
    hide Inv, Head, LastOf, Committed, VersionString, Misread, FreshHashes, Stripped, Nested;
    assert Slashless(GENERIC_LIBRARY_KEY);
    ProposedNumbers(Head(s, base, manifest.name, branch), manifest.apiUpdated, branch);
    if Kept(branch) {
      ProposedIsNew(s, base, log, manifest.name, branch, manifest.apiUpdated);
    }
    CommitKeepsInv(s, base, log, c, hs);
  }

  /** The archive and the manifest passed in are what is put on record, under the library's name and the branch. */
  lemma {:induction false} CreatedIsThere(s: Store, base: Path, manifest: LibraryManifest, archive: string,
                                          branch: string, v: SemanticVersion, hs: Hashes)
    requires v.branch == branch && Slashless(manifest.name)
    requires FreshHashes(s, base, NewCommit(manifest, archive, v), hs)
    ensures NewCommit(manifest, archive, v)
         == Commit(MetaKey("library", manifest.name, v), archive, manifest.(version := VersionString(v)))
    ensures var t, k := Committed(s, base, NewCommit(manifest, archive, v), hs), MetaKey("library", manifest.name, v);
      Plain(branch) ==>
        && Recorded(t, base, LIBRARY, k, Archive(archive))
        && Recorded(t, base, META, k, Meta(manifest.(version := VersionString(v))))
  {
    hide Committed, FreshHashes, Recorded, VersionString;
    assert Slashless(GENERIC_LIBRARY_KEY);
    if Plain(branch) {
      CommittedInStore(s, base, NewCommit(manifest, archive, v), hs);
    }
  }

  class LibraryManager {
    const storage: FileSystemStorage
    const metaStorage: SemanticFileStorage
    const libraryStorage: SemanticFileStorage
    /** Every version created so far. */
    ghost var log: seq<Commit>

    ghost predicate Valid()
    {
      && metaStorage.storage == storage && metaStorage.prefix == META
      && libraryStorage.storage == storage && libraryStorage.prefix == LIBRARY
    }

    /** The store agrees with what has been created. */
    ghost predicate Consistent()
      reads this, storage
    {
      Inv(storage.store, storage.base, log)
    }

    constructor (base: Path)
      ensures Valid() && Consistent() && fresh(storage) && storage.base == base && log == []
    {
      var physical := new FileSystemStorage(base);
      var meta := new SemanticFileStorage(META, physical);
      var library := new SemanticFileStorage(LIBRARY, physical);
      storage, metaStorage, libraryStorage := physical, meta, library;
      log := [];
    }

    /**
     * Commits a library with the given manifest and archived folder on a branch. The hashes of what is stored, whatever
     * they are, are taken to be new.
     */
    method Create(manifest: LibraryManifest, archive: string, branch: string, hs: Hashes)
      returns (r: Result<MetaKey, CreateError>)
      requires Valid()
      requires var v := Propose(Head(storage.store, storage.base, manifest.name, branch), manifest.apiUpdated, branch);
        v.Ok? ==> FreshHashes(storage.store, storage.base, NewCommit(manifest, archive, v.value), hs)
      modifies this, storage
      ensures old(Consistent()) && (Slashless(branch) || old(Nested(storage.store, branch))) ==> Consistent()
      ensures (storage.store, r) == CreateIn(old(storage.store), storage.base, manifest, archive, branch, hs)
      ensures log == if r.Ok? then old(log) + [NewCommit(manifest, archive, r.value.componentVersion)] else old(log)
      ensures r.Ok? ==>
        && r.value.componentType == "library" && r.value.componentName == manifest.name
        && r.value.componentVersion.branch == branch
        && log == old(log) + [Commit(r.value, archive,
                                     manifest.(version := VersionString(r.value.componentVersion)))]
      ensures r.Ok? && Plain(branch) ==>
        && Recorded(storage.store, storage.base, LIBRARY, r.value, Archive(archive))
        && Recorded(storage.store, storage.base, META, r.value,
                    Meta(manifest.(version := VersionString(r.value.componentVersion))))
    {
      hide Inv, ParseVersion, VersionString, FreshHashes, Committed, Misread, Recorded, HeadAt, EntityKey, Plain;
      hide Propose, PutVersion, VersionKey, Slashless, EntityDir, Nested;
      var libraryKey := LibraryKey(manifest.name, SemanticVersion(branch, 0, 0));
      var head := metaStorage.GetBranchHead(libraryKey);
      var proposed := Propose(head, manifest.apiUpdated, branch);
      if proposed.Err? {
        return Err(proposed.error);
      }
      libraryKey := libraryKey.(componentVersion := proposed.value);
      var manifestMeta := manifest.(version := VersionString(proposed.value));
      if !Slashless(manifest.name) {
        return Err(FileMissing);
      }
      ghost var c := NewCommit(manifest, archive, proposed.value);
      ghost var before := storage.store;
      if Inv(before, storage.base, log) && (Slashless(branch) || Nested(before, branch)) {
        NextCommit(before, storage.base, log, manifest, archive, branch, c, hs);
      }
      libraryStorage.Put(libraryKey, Archive(archive), hs.archive, hs.archiveVersion);
      metaStorage.Put(libraryKey, Meta(manifestMeta), hs.manifest, hs.manifestVersion);
      CommittedIs(before, storage.base, c, hs);
      ProposedNumbers(head, manifest.apiUpdated, branch);
      CreatedIsThere(before, storage.base, manifest, archive, branch, proposed.value, hs);
      log := log + [c];
      return Ok(libraryKey);
    }

    /** Every version created on a branch that is kept is still there, and says which version it is. */
    method Read(c: Commit) returns (archive: Result<Content, StoreError>, manifest: Result<Content, StoreError>)
      requires Valid() && Consistent() && c in log
      ensures Kept(c.key.componentVersion.branch) ==>
        && archive == Ok(Archive(c.archive)) && manifest == Ok(Meta(c.manifest))
        && c.manifest.version == VersionString(c.key.componentVersion)
    {
      hide Recorded, Increasing, Head, HeadOf, HeadAt, Plain, VersionIs, VersionDir, KeyDir, LibrariesOnly;
      archive := libraryStorage.GetSemanticVersion(c.key);
      manifest := metaStorage.GetSemanticVersion(c.key);
    }

    /** No dataset is found among the libraries. */
    method GetArchive(k: MetaKey) returns (archive: Result<Content, StoreError>)
      requires Valid() && Consistent()
      ensures k.componentType == GENERIC_DATASET_KEY && Flat(k) && Plain(k.componentVersion.branch) ==>
        archive == Err(KeyError)
      ensures forall c :: c in log && Kept(c.key.componentVersion.branch) && c.key == k ==>
        archive == Ok(Archive(c.archive))
      ensures forall a :: Recorded(storage.store, storage.base, LIBRARY, k, Archive(a)) ==> archive == Ok(Archive(a))
    {
      hide Recorded, Increasing, Head, HeadOf, Plain, VersionIs, VersionDir, KeyDir;
      archive := libraryStorage.GetSemanticVersion(k);
    }
  }
}
