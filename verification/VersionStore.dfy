/** Semantic versions over the file store: an entity for each component, and a mapping from versions to hashes. */
module VersionStore {
  import opened Wrappers
  import opened Paths
  import opened Keys
  import opened FileStore

  const META := "MetaStorage"
  const LIBRARY := "LibraryStorage"

  function VersionKey(prefix: string, k: MetaKey): string
  {
    prefix + "::VersionMapping::" + KeyString(k)
  }

  function EntityKey(prefix: string, k: MetaKey): string
  {
    prefix + "::Entity::" + (k.componentType + "::" + k.componentName)
  }

  // ---------- Which keys are different ----------

  predicate Numbered(k: MetaKey)
  {
    k.componentVersion.apiVersion >= 0 && k.componentVersion.incVersion >= 0
  }

  lemma {:induction false} Prefixed(k: MetaKey)
    requires Numbered(k)
    ensures var v := k.componentVersion;
      KeyString(k) == (k.componentType + "::" + k.componentName + "::" + v.branch)
                      + "." + Decimal(v.apiVersion) + "." + Decimal(v.incVersion)
  {
    hide Decimal;
    var v := k.componentVersion;
    Regroup(k.componentType + "::" + k.componentName + "::", v.branch, Decimal(v.apiVersion), Decimal(v.incVersion));
  }

  /** Keys of one type on one branch print alike only if they are alike, whatever their names and branch contain. */
  lemma {:induction false} SameBranchStrings(k: MetaKey, l: MetaKey)
    requires k.componentType == l.componentType && k.componentVersion.branch == l.componentVersion.branch
    requires Numbered(k) && Numbered(l) && KeyString(k) == KeyString(l)
    ensures k == l
  {
    hide NumbersAt, VersionBetween, Decimal, KeyString;
    var v, w := k.componentVersion, l.componentVersion;
    var f := k.componentType + "::" + k.componentName + "::" + v.branch;
    var g := l.componentType + "::" + l.componentName + "::" + w.branch;
    Prefixed(k);
    Prefixed(l);
    PrintedNumbers(f, v.apiVersion, v.incVersion);
    PrintedNumbers(g, w.apiVersion, w.incVersion);
    assert |f| == |g|;
    assert f == KeyString(k)[..|f|] == g;
    assert VersionBetween(KeyString(k), |f|, |f|) == SemanticVersion(f[|f|..], v.apiVersion, v.incVersion);
    assert VersionBetween(KeyString(k), |g|, |g|) == SemanticVersion(g[|g|..], w.apiVersion, w.incVersion);
    var n, m := k.componentName, l.componentName;
    var t := |k.componentType| + 2;
    assert n == f[t..t + |n|] && m == g[t..t + |m|];
  }

  predicate Known(prefix: string)
  {
    prefix == META || prefix == LIBRARY
  }

  lemma {:induction false} EntitiesAreNotVersions(p: string, q: string, k: MetaKey, l: MetaKey)
    requires Known(p) && Known(q)
    ensures EntityKey(p, k) != VersionKey(q, l)
  {
    hide KeyString;
    var e, v := EntityKey(p, k), VersionKey(q, l);
    if p == q {
      assert e[|p| + 2] == 'E' && v[|p| + 2] == 'V';
    } else {
      assert e[0] == p[0] && v[0] == q[0];
    }
  }

  lemma {:induction false} VersionKeysDiffer(p: string, q: string, k: MetaKey, l: MetaKey)
    requires Known(p) && Known(q) && VersionKey(p, k) == VersionKey(q, l)
    ensures p == q && KeyString(k) == KeyString(l)
  {
    hide KeyString;
    var e, v := VersionKey(p, k), VersionKey(q, l);
    assert e[0] == p[0] && v[0] == q[0];
    assert e[|p + "::VersionMapping::"|..] == KeyString(k) && v[|q + "::VersionMapping::"|..] == KeyString(l);
  }

  lemma {:induction false} EntityKeysDiffer(p: string, q: string, k: MetaKey, l: MetaKey)
    requires Known(p) && Known(q) && EntityKey(p, k) == EntityKey(q, l) && k.componentType == l.componentType
    ensures p == q && k.componentName == l.componentName
  {
    var e, v := EntityKey(p, k), EntityKey(q, l);
    assert e[0] == p[0] && v[0] == q[0];
    var n := |p + "::Entity::" + k.componentType + "::"|;
    assert e[n..] == k.componentName && v[n..] == l.componentName;
  }

  // ---------- Keys as names of directories ----------

  /** No part of the key leads into another directory. */
  predicate Flat(k: MetaKey)
  {
    Slashless(k.componentType) && Slashless(k.componentName) && Slashless(k.componentVersion.branch)
  }

  lemma {:induction false} SlashlessJoin(a: string, b: string)
    ensures Slashless(a + b) <==> Slashless(a) && Slashless(b)
  {
    assert forall i :: 0 <= i < |a| ==> (a + b)[i] == a[i];
    assert forall i :: 0 <= i < |b| ==> (a + b)[|a| + i] == b[i];
  }

  lemma {:induction false} SlashlessNumber(n: int)
    ensures Slashless(IntString(n))
  {
    hide Decimal;
    if n < 0 {
      SlashlessJoin("-", Decimal(-n));
    }
  }

  lemma {:induction false} DotAndColons()
    ensures Slashless(".") && Slashless("::")
  {
  }

  lemma {:induction false} SlashlessKeyString(k: MetaKey)
    requires Flat(k)
    ensures Slashless(KeyString(k))
  {
    hide IntString, Slashless;
    var v := k.componentVersion;
    var a, b := IntString(v.apiVersion), IntString(v.incVersion);
    SlashlessNumber(v.apiVersion);
    SlashlessNumber(v.incVersion);
    assert Slashless(".") && Slashless("::") by {
      DotAndColons();
    }
    SlashlessJoin(v.branch, ".");
    SlashlessJoin(v.branch + ".", a);
    SlashlessJoin(v.branch + "." + a, ".");
    SlashlessJoin(v.branch + "." + a + ".", b);
    SlashlessJoin(k.componentType, "::");
    SlashlessJoin(k.componentType + "::", k.componentName);
    SlashlessJoin(k.componentType + "::" + k.componentName, "::");
    SlashlessJoin(k.componentType + "::" + k.componentName + "::", VersionString(v));
  }

  lemma {:induction false} EntityKeyPlain(prefix: string, k: MetaKey)
    requires Known(prefix)
    ensures Plain(EntityKey(prefix, k)) <==> Slashless(k.componentType) && Slashless(k.componentName)
    ensures Plain(EntityKey(prefix, k)) <==> Slashless(EntityKey(prefix, k))
  {
    assert |EntityKey(prefix, k)| > 2;
    assert Slashless(prefix + "::Entity::");
    DotAndColons();
    hide Slashless;
    SlashlessJoin(k.componentType, "::");
    SlashlessJoin(k.componentType + "::", k.componentName);
    SlashlessJoin(prefix + "::Entity::", k.componentType + "::" + k.componentName);
  }

  lemma {:induction false} VersionKeyPlain(prefix: string, k: MetaKey)
    requires Known(prefix) && Flat(k)
    ensures Plain(VersionKey(prefix, k))
  {
    hide KeyString;
    SlashlessKeyString(k);
    SlashlessJoin(prefix + "::VersionMapping::", KeyString(k));
    assert |VersionKey(prefix, k)| > 2;
    assert Slashless(prefix + "::VersionMapping::");
  }

  // ---------- Putting and getting by semantic version ----------

  /** The directory of a component, the one of its branch, and the one of the mapping. */
  function KeyDir(base: Path, prefix: string, k: MetaKey): Path
  {
    At(base, EntityKey(prefix, k))
  }

  function EntityDir(base: Path, prefix: string, k: MetaKey): Path
  {
    At(KeyDir(base, prefix, k), k.componentVersion.branch)
  }

  function VersionDir(base: Path, prefix: string, k: MetaKey): Path
  {
    At(At(base, VersionKey(prefix, k)), k.componentVersion.branch)
  }

  /** Where the directories of a flat key are: the branch is below the key, unless it has no name of its own. */
  lemma {:induction false} Places(base: Path, prefix: string, k: MetaKey)
    requires Known(prefix) && Flat(k)
    ensures var branch := k.componentVersion.branch;
      && KeyDir(base, prefix, k) == base + [EntityKey(prefix, k)]
      && (Plain(branch) ==> EntityDir(base, prefix, k) == base + [EntityKey(prefix, k), branch])
      && (Plain(branch) ==> VersionDir(base, prefix, k) == base + [VersionKey(prefix, k), branch])
      && (!Plain(branch) ==> |EntityDir(base, prefix, k)| <= |base| + 1 && |VersionDir(base, prefix, k)| <= |base| + 1)
  {
    hide VersionKey, EntityKey, At;
    var branch := k.componentVersion.branch;
    EntityKeyPlain(prefix, k);
    VersionKeyPlain(prefix, k);
    SlashlessAt(base, EntityKey(prefix, k));
    SlashlessAt(base, VersionKey(prefix, k));
    SlashlessAt(base + [EntityKey(prefix, k)], branch);
    SlashlessAt(base + [VersionKey(prefix, k)], branch);
  }

  ghost predicate FoundAs(s: Store, k: Path, h: string, content: Content)
  {
    && FoundBelow(s, k, h)
    && forall p :: Below(k, p) && At(p, h) in s ==> FileAt(s, At(p, h)) == Ok(content)
  }

  ghost predicate RecordedAt(s: Store, base: Path, prefix: string, k: MetaKey, content: Content, h: string)
  {
    && Plain(h) && HeadAt(s, VersionDir(base, prefix, k)) == Ok(Text(h))
    && Slashless(EntityKey(prefix, k)) && FoundAs(s, KeyDir(base, prefix, k), h, content)
  }

  /** The hash of the version is on record, and the search for it leads to the content and nowhere else. */
  ghost predicate Recorded(s: Store, base: Path, prefix: string, k: MetaKey, content: Content)
  {
    exists h :: RecordedAt(s, base, prefix, k, content, h)
  }

  function PutVersion(s: Store, base: Path, prefix: string, k: MetaKey, content: Content, h: string, g: string): Store
  {
    PutAt(PutAt(s, EntityDir(base, prefix, k), content, h), VersionDir(base, prefix, k), Text(h), g)
  }

  /** A new hash, which is the name of no directory. */
  predicate FreshHash(s: Store, base: Path, prefix: string, k: MetaKey, h: string)
  {
    Plain(h) && Unused(s, h) && h !in EntityDir(base, prefix, k) && h !in VersionDir(base, prefix, k)
  }

  /** After a put of a new version, its directory is the only one of that name. */
  lemma {:induction false} OnlyVersion(s: Store, base: Path, prefix: string, k: MetaKey, content: Content, h: string,
                                       g: string, p: Path)
    requires FreshHash(s, base, prefix, k, h) && FreshHash(s, base, prefix, k, g) && h != g
    ensures p + [h] in PutVersion(s, base, prefix, k, content, h, g) <==> p == EntityDir(base, prefix, k)
    ensures var t := PutVersion(s, base, prefix, k, content, h, g);
      NodeAt(t, EntityDir(base, prefix, k) + [h]).value == Some(content)
  {
    hide EntityDir, VersionDir, PutAt;
    var e, v := EntityDir(base, prefix, k), VersionDir(base, prefix, k);
    var t := PutAt(s, e, content, h);
    PutChanges(s, e, content, h);
    PutChanges(t, v, Text(h), g);
    OnlyBeginning(p, h, e, h);
    OnlyBeginning(p, h, v, g);
    assert h in p + [h] by {
      assert (p + [h])[|p|] == h;
    }
    assert h in e + [h] by {
      assert (e + [h])[|e|] == h;
    }
    assert h !in v + [g];
  }

  lemma {:induction false} HeadOfMapping(s: Store, base: Path, prefix: string, k: MetaKey, content: Content, h: string,
                                         g: string)
    ensures HeadAt(PutVersion(s, base, prefix, k, content, h, g), VersionDir(base, prefix, k)) == Ok(Text(h))
  {
    hide EntityDir, VersionDir, PutAt, HeadAt;
    HeadOfPut(PutAt(s, EntityDir(base, prefix, k), content, h), VersionDir(base, prefix, k), Text(h), g);
  }

  lemma {:induction false} DirIsThere(s: Store, base: Path, prefix: string, k: MetaKey, content: Content, h: string,
                                      g: string)
    ensures EntityDir(base, prefix, k) in PutVersion(s, base, prefix, k, content, h, g)
  {
    hide EntityDir, VersionDir, PutAt;
    var e := EntityDir(base, prefix, k);
    PutChanges(s, e, content, h);
    PutChanges(PutAt(s, e, content, h), VersionDir(base, prefix, k), Text(h), g);
  }

  /**
   * A version that has just been put is found again if and only if its branch is one directory below that of its
   * component, and the names of the component lead into no other directory; otherwise its file is missing.
   */
  lemma {:induction false} OwnVersionFound(s: Store, base: Path, prefix: string, k: MetaKey, content: Content,
                                           h: string, g: string)
    requires FreshHash(s, base, prefix, k, h) && FreshHash(s, base, prefix, k, g) && h != g
    ensures var t := PutVersion(s, base, prefix, k, content, h, g);
      && HeadAt(t, VersionDir(base, prefix, k)) == Ok(Text(h))
      && (Recorded(t, base, prefix, k, content)
          <==> Slashless(EntityKey(prefix, k)) && Below(KeyDir(base, prefix, k), EntityDir(base, prefix, k)))
      && (!Below(KeyDir(base, prefix, k), EntityDir(base, prefix, k)) ==> !FoundBelow(t, KeyDir(base, prefix, k), h))
  {
    hide EntityDir, VersionDir, KeyDir, PutAt, PutVersion, HeadAt, At, EntityKey, Below;
    var t := PutVersion(s, base, prefix, k, content, h, g);
    var e, d := EntityDir(base, prefix, k), KeyDir(base, prefix, k);
    HeadOfMapping(s, base, prefix, k, content, h, g);
    forall p
      ensures At(p, h) in t <==> p == e
      ensures At(p, h) == p + [h]
    {
      SlashlessAt(p, h);
      OnlyVersion(s, base, prefix, k, content, h, g, p);
    }
    DirIsThere(s, base, prefix, k, content, h, g);
    OnlyVersion(s, base, prefix, k, content, h, g, e);
    if Slashless(EntityKey(prefix, k)) && Below(d, e) {
      assert e in Children(t, d);
      assert RecordedAt(t, base, prefix, k, content, h);
    }
  }

  /** In particular, for names without slashes, a version is found again if and only if its branch has a name. */
  lemma {:induction false} NamedBranchesFound(s: Store, base: Path, prefix: string, k: MetaKey, content: Content,
                                              h: string, g: string)
    requires FreshHash(s, base, prefix, k, h) && FreshHash(s, base, prefix, k, g) && h != g
    requires Known(prefix) && Flat(k)
    ensures Recorded(PutVersion(s, base, prefix, k, content, h, g), base, prefix, k, content)
       <==> Plain(k.componentVersion.branch)
  {
    hide At, EntityKey, Recorded, PutVersion;
    OwnVersionFound(s, base, prefix, k, content, h, g);
    EntityKeyPlain(prefix, k);
    BelowByOneName(KeyDir(base, prefix, k), k.componentVersion.branch);
  }

  lemma {:induction false} FoundKept(s: Store, base: Path, p: Path, c: Content, g: string, d: Path, h: string,
                                     content: Content)
    requires FoundAs(s, d, h, content) && Plain(h) && Unused(s, g)
    requires |p| <= |base| + 2 && |d| == |base| + 1
    ensures FoundAs(PutAt(s, p, c, g), d, h, content)
  {
    hide PutAt, At;
    var t := PutAt(s, p, c, g);
    PutChanges(s, p, c, g);
    var q :| q in Children(s, d) && At(q, h) in s;
    forall q
      ensures At(q, h) == q + [h]
    {
      SlashlessAt(q, h);
    }
    assert h != g by {
      assert (q + [h])[|q|] == h;
    }
    assert q in Children(t, d) && At(q, h) in t;
    forall r | Below(d, r) && At(r, h) in t
      ensures FileAt(t, At(r, h)) == Ok(content)
    {
      OtherEnd(r, h, p, g);
      assert r + [h] <= p + [g] ==> r + [h] == p + [g];
      assert NodeAt(t, r + [h]) == NodeAt(s, r + [h]);
    }
  }

  /** A put elsewhere, and not further down than branches are, leaves a record on a named branch alone. */
  lemma {:induction false} RecordKept(s: Store, base: Path, p: Path, c: Content, g: string, prefix: string, k: MetaKey,
                                      content: Content)
    requires Recorded(s, base, prefix, k, content) && Known(prefix) && Flat(k) && Plain(k.componentVersion.branch)
    requires Unused(s, g) && |p| <= |base| + 2 && p != VersionDir(base, prefix, k)
    ensures Recorded(PutAt(s, p, c, g), base, prefix, k, content)
  {
    hide VersionKey, EntityKey, PutAt, HeadAt, At, KeyDir, EntityDir, VersionDir;
    var t := PutAt(s, p, c, g);
    var h :| RecordedAt(s, base, prefix, k, content, h);
    Places(base, prefix, k);
    HeadKept(s, p, c, g, VersionDir(base, prefix, k));
    FoundKept(s, base, p, c, g, KeyDir(base, prefix, k), h, content);
    assert RecordedAt(t, base, prefix, k, content, h);
  }

  // ---------- Branches with slashes ----------

  /** A branch of several directories, one in the other, none of which has the name of a version. */
  ghost predicate Nested(s: Store, branch: string)
  {
    && branch != "" && branch[0] != '/' && |Parts(branch)| >= 2
    && ".." !in Parts(branch) && forall x :: x in Parts(branch) ==> !NamesVersion(s, x)
  }

  /** A key that leads nowhere but to directories of its own: only its branch may have slashes, and is nested then. */
  ghost predicate Apart(s: Store, k: MetaKey)
  {
    && Slashless(k.componentType) && Slashless(k.componentName)
    && (Slashless(k.componentVersion.branch) || Nested(s, k.componentVersion.branch))
  }

  lemma {:induction false} NestedEntity(base: Path, prefix: string, k: MetaKey)
    requires Known(prefix) && Slashless(k.componentType) && Slashless(k.componentName)
    requires var branch := k.componentVersion.branch; branch != "" && branch[0] != '/' && ".." !in Parts(branch)
    ensures EntityDir(base, prefix, k) == base + [EntityKey(prefix, k)] + Parts(k.componentVersion.branch)
  {
    hide EntityKey, Walk;
    EntityKeyPlain(prefix, k);
    SlashlessAt(base, EntityKey(prefix, k));
    WalkDown(base + [EntityKey(prefix, k)], Parts(k.componentVersion.branch));
  }

  function VersionStart(prefix: string, k: MetaKey): string
  {
    prefix + "::VersionMapping::" + (k.componentType + "::" + k.componentName + "::")
  }

  function VersionEnd(k: MetaKey): string
  {
    "." + IntString(k.componentVersion.apiVersion) + "." + IntString(k.componentVersion.incVersion)
  }

  lemma {:induction false} VersionKeyPieces(prefix: string, k: MetaKey)
    requires Known(prefix) && Slashless(k.componentType) && Slashless(k.componentName)
    ensures VersionKey(prefix, k) == VersionStart(prefix, k) + (k.componentVersion.branch + VersionEnd(k))
    ensures Slashless(VersionStart(prefix, k)) && |VersionStart(prefix, k)| >= 3
    ensures Slashless(VersionEnd(k)) && |VersionEnd(k)| >= 3
  {
    var v := k.componentVersion;
    var a, b := IntString(v.apiVersion), IntString(v.incVersion);
    assert |a| >= 1 && |b| >= 1;
    SlashlessNumber(v.apiVersion);
    SlashlessNumber(v.incVersion);
    DotAndColons();
    assert Slashless(prefix + "::VersionMapping::");
    hide IntString, Slashless;
    SlashlessJoin(".", a);
    SlashlessJoin("." + a, ".");
    SlashlessJoin("." + a + ".", b);
    SlashlessJoin(k.componentType, "::");
    SlashlessJoin(k.componentType + "::", k.componentName);
    SlashlessJoin(k.componentType + "::" + k.componentName, "::");
    SlashlessJoin(prefix + "::VersionMapping::", k.componentType + "::" + k.componentName + "::");
  }

  lemma {:induction false} StartsDiffer(p: string, q: string, k: MetaKey, l: MetaKey, x: string)
    requires Known(p) && Known(q) && VersionStart(p, k) <= x
    ensures x != EntityKey(q, l)
  {
    var e, v := EntityKey(q, l), VersionStart(p, k);
    assert x[0] == v[0] == p[0] && e[0] == q[0];
    assert x[|p| + 2] == v[|p| + 2] == 'V' && e[|q| + 2] == 'E';
  }

  /** The mapping of such a key is at least three directories down, the first of which is that of no component. */
  lemma {:induction false} NestedMapping(base: Path, prefix: string, k: MetaKey) returns (front: Path)
    requires Known(prefix) && Slashless(k.componentType) && Slashless(k.componentName)
    requires var branch := k.componentVersion.branch; branch != "" && branch[0] != '/' && ".." !in Parts(branch)
    ensures VersionDir(base, prefix, k) == base + front + Parts(k.componentVersion.branch) && front != []
    ensures forall q, l :: Known(q) ==> front[0] != EntityKey(q, l)
  {
    hide EntityKey, Walk, VersionKey, Parts, VersionStart, VersionEnd;
    var branch, key := k.componentVersion.branch, VersionKey(prefix, k);
    VersionKeyPieces(prefix, k);
    EndingLeadsDown(branch, VersionEnd(k));
    BeginningIsFirst(VersionStart(prefix, k), branch + VersionEnd(k));
    front := Parts(key);
    assert key[0] == VersionStart(prefix, k)[0] != '/';
    WalkDown(base, front);
    WalkDown(base + front, Parts(branch));
    forall q, l | Known(q)
      ensures front[0] != EntityKey(q, l)
    {
      StartsDiffer(prefix, q, k, l, front[0]);
    }
  }

  lemma {:induction false} OnTheWay(d: Path, r: Path, h: string, p: Path, g: string)
    requires Below(d, r) && |p| >= |d| + 2
    ensures r + [h] != p + [g]
    ensures r + [h] <= p + [g] ==> p[..|d|] == d && p[|d| + 1] == h
  {
    if r + [h] <= p + [g] {
      assert p[..|d| + 2] == (p + [g])[..|d| + 2] == r + [h];
      assert p[|d| + 1] == (r + [h])[|d| + 1] == h;
      assert p[..|d|] == (r + [h])[..|d|] == r[..|d|];
    }
  }

  lemma {:induction false} FoundKeptAbove(s: Store, base: Path, p: Path, c: Content, g: string, d: Path, h: string,
                                          content: Content)
    requires FoundAs(s, d, h, content) && Plain(h) && |d| == |base| + 1
    requires |p| >= |base| + 3 && NodeAt(s, p).value == None
    requires p[..|base| + 1] != d || !NamesVersion(s, p[|base| + 2])
    ensures FoundAs(PutAt(s, p, c, g), d, h, content)
  {
    hide PutAt, At;
    var t := PutAt(s, p, c, g);
    PutChanges(s, p, c, g);
    var q :| q in Children(s, d) && At(q, h) in s;
    forall q
      ensures At(q, h) == q + [h]
    {
      SlashlessAt(q, h);
    }
    assert s[q + [h]].value.Some?;
    assert NamesVersion(s, h);
    assert q in Children(t, d) && At(q, h) in t;
    forall r | Below(d, r) && At(r, h) in t
      ensures FileAt(t, At(r, h)) == Ok(content)
    {
      OnTheWay(d, r, h, p, g);
      assert NodeAt(t, r + [h]).value == NodeAt(s, r + [h]).value;
    }
  }

  /** A put far down leaves a record on a named branch alone, if it comes by no version of that component. */
  lemma {:induction false} RecordKeptAbove(s: Store, base: Path, p: Path, c: Content, g: string, prefix: string,
                                           k: MetaKey, content: Content)
    requires Recorded(s, base, prefix, k, content) && Known(prefix) && Flat(k) && Plain(k.componentVersion.branch)
    requires |p| >= |base| + 3 && NodeAt(s, p).value == None
    requires p[..|base| + 1] != KeyDir(base, prefix, k) || !NamesVersion(s, p[|base| + 2])
    ensures Recorded(PutAt(s, p, c, g), base, prefix, k, content)
  {
    hide VersionKey, EntityKey, PutAt, HeadAt, At, KeyDir, EntityDir, VersionDir;
    var t := PutAt(s, p, c, g);
    var h :| RecordedAt(s, base, prefix, k, content, h);
    Places(base, prefix, k);
    HeadKeptAbove(s, p, c, g, VersionDir(base, prefix, k));
    FoundKeptAbove(s, base, p, c, g, KeyDir(base, prefix, k), h, content);
    assert RecordedAt(t, base, prefix, k, content, h);
  }

  lemma {:induction false} SecondLast(base: Path, a: string, b: string, c: string, d: string)
    ensures base + [a, b] == base + [c, d] <==> a == c && b == d
  {
    if base + [a, b] == base + [c, d] {
      assert (base + [a, b])[|base|..] == [a, b] && (base + [c, d])[|base|..] == [c, d];
      assert [a, b][0] == [c, d][0] && [a, b][1] == [c, d][1];
    }
  }

  lemma {:induction false} NestedPut(s: Store, base: Path, front: Path, branch: string, p: Path)
    requires Nested(s, branch) && front != [] && p == base + front + Parts(branch)
    ensures |p| >= |base| + 3 && NodeAt(s, p).value == None
    ensures p[..|base| + 1] == base + [front[0]]
    ensures |front| == 1 ==> !NamesVersion(s, p[|base| + 2])
  {
    hide Parts;
    var parts := Parts(branch);
    var x := parts[|parts| - 1];
    assert p[..|p| - 1] + [x] == p;
    assert x in parts && !NamesVersion(s, x);
    if |front| == 1 {
      assert p[|base| + 2] == parts[1] && parts[1] in parts;
    }
  }

  lemma {:induction false} StillNested(s: Store, branch: string, p: Path, content: Content, h: string)
    requires Nested(s, branch) && h !in Parts(branch)
    ensures Nested(PutAt(s, p, content, h), branch)
  {
    hide PutAt, Parts, NamesVersion;
    forall x | x in Parts(branch)
      ensures !NamesVersion(PutAt(s, p, content, h), x)
    {
      if NamesVersion(PutAt(s, p, content, h), x) {
        VersionNames(s, p, content, h, x);
      }
    }
  }

  lemma {:induction false} KeptByNested(s: Store, base: Path, prefix: string, k: MetaKey, content: Content,
                                        h: string, g: string, q: string, l: MetaKey, c: Content)
    requires Known(prefix) && Known(q) && Recorded(s, base, q, l, c)
    requires FreshHash(s, base, prefix, k, h)
    requires Slashless(k.componentType) && Slashless(k.componentName) && Nested(s, k.componentVersion.branch)
    requires Flat(l) && Plain(l.componentVersion.branch)
    ensures Recorded(PutVersion(s, base, prefix, k, content, h, g), base, q, l, c)
  {
    hide VersionKey, EntityKey, Recorded, EntityDir, VersionDir, KeyDir, PutAt, Plain, Unused, NamesVersion, Parts;
    var e, v, branch := EntityDir(base, prefix, k), VersionDir(base, prefix, k), k.componentVersion.branch;
    NestedEntity(base, prefix, k);
    var front := NestedMapping(base, prefix, k);
    Places(base, q, l);
    NestedPut(s, base, [EntityKey(prefix, k)], branch, e);
    RecordKeptAbove(s, base, e, content, h, q, l, c);
    assert h !in Parts(branch);
    StillNested(s, branch, e, content, h);
    var t := PutAt(s, e, content, h);
    NestedPut(t, base, front, branch, v);
    assert (base + [front[0]])[|base|] != (base + [EntityKey(q, l)])[|base|];
    RecordKeptAbove(t, base, v, Text(h), g, q, l, c);
  }

  /** Putting one version leaves the record of another on a named branch alone. */
  lemma {:induction false} OtherVersionKept(s: Store, base: Path, prefix: string, k: MetaKey, content: Content,
                                            h: string, g: string, q: string, l: MetaKey, c: Content)
    requires Known(prefix) && Known(q) && Recorded(s, base, q, l, c)
    requires FreshHash(s, base, prefix, k, h) && FreshHash(s, base, prefix, k, g) && h != g
    requires Apart(s, k) && Flat(l) && Plain(l.componentVersion.branch)
    requires q != prefix || (k != l && k.componentType == l.componentType && Numbered(k) && Numbered(l))
    ensures Recorded(PutVersion(s, base, prefix, k, content, h, g), base, q, l, c)
  {
    hide VersionKey, EntityKey, Recorded, KeyString, EntityDir, VersionDir, KeyDir, PutAt, Unused, Plain;
    if !Slashless(k.componentVersion.branch) {
      KeptByNested(s, base, prefix, k, content, h, g, q, l, c);
      return;
    }
    var e, v := EntityDir(base, prefix, k), VersionDir(base, prefix, k);
    Places(base, prefix, k);
    Places(base, q, l);
    EntitiesAreNotVersions(prefix, q, k, l);
    assert e != VersionDir(base, q, l) by {
      SecondLast(base, EntityKey(prefix, k), k.componentVersion.branch, VersionKey(q, l), l.componentVersion.branch);
    }
    RecordKept(s, base, e, content, h, q, l, c);
    assert v != VersionDir(base, q, l) by {
      SecondLast(base, VersionKey(prefix, k), k.componentVersion.branch, VersionKey(q, l), l.componentVersion.branch);
      if VersionKey(prefix, k) == VersionKey(q, l) && k.componentVersion.branch == l.componentVersion.branch {
        VersionKeysDiffer(prefix, q, k, l);
        SameBranchStrings(k, l);
      }
    }
    StillUnused(s, e, content, h, g);
    RecordKept(PutAt(s, e, content, h), base, v, Text(h), g, q, l, c);
  }

  lemma {:induction false} NamedCopy(key: string)
    requires Slashless(key)
    ensures Slashless(key + "-None")
  {
    SlashlessJoin(key, "-None");
  }

  class SemanticFileStorage {
    const prefix: string
    const storage: FileSystemStorage

    constructor (prefix: string, storage: FileSystemStorage)
      ensures this.prefix == prefix && this.storage == storage
    {
      this.prefix, this.storage := prefix, storage;
    }

    method Put(k: MetaKey, content: Content, h: string, g: string)
      modifies storage
      ensures storage.store == PutVersion(old(storage.store), storage.base, prefix, k, content, h, g)
    {
      hide PutAt;
      storage.Put(EntityKey(prefix, k), k.componentVersion.branch, content, h);
      storage.Put(VersionKey(prefix, k), k.componentVersion.branch, Text(h), g);
    }

    method GetBranchHead(k: MetaKey) returns (r: Result<Content, StoreError>)
      ensures var name := EntityKey(prefix, k) + "-" + k.componentVersion.branch;
        r == Copied(HeadAt(storage.store, EntityDir(storage.base, prefix, k)), name)
    {
      r := storage.GetHead(EntityKey(prefix, k), k.componentVersion.branch, FILE);
    }

    /** Whatever is on record is returned; the recorded hash is searched for below the key. */
    method GetSemanticVersion(k: MetaKey) returns (r: Result<Content, StoreError>)
      ensures forall c :: Recorded(storage.store, storage.base, prefix, k, c) ==> r == Ok(c)
      ensures match HeadAt(storage.store, VersionDir(storage.base, prefix, k))
        case Err(e) => r == Err(e)
        case Ok(Archive(_)) => r == Err(UnicodeDecodeError)
        case Ok(Meta(_)) => r == Err(FileNotFound)
        case Ok(Text(h)) => exists found ::
          && VersionIs(storage.store, KeyDir(storage.base, prefix, k), h, found)
          && r == Copied(found, EntityKey(prefix, k) + "-None")
    {
      hide VersionKey, EntityKey, At, HeadAt;
      var hashed := storage.GetHead(VersionKey(prefix, k), k.componentVersion.branch, STRING);
      if hashed.Err? {
        return Err(hashed.error);
      }
      if hashed.value.Archive? {
        return Err(UnicodeDecodeError);
      }
      if hashed.value.Meta? {
        return Err(FileNotFound);
      }
      r := storage.GetVersion(EntityKey(prefix, k), hashed.value.text);
      forall c | Recorded(storage.store, storage.base, prefix, k, c)
        ensures r == Ok(c)
      {
        var h :| RecordedAt(storage.store, storage.base, prefix, k, c, h);
        NamedCopy(EntityKey(prefix, k));
      }
    }
  }
}
