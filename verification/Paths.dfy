/** Paths of the file system: what joining names with slashes, empty parts and dots comes to. */
module Paths {
  /** The names on the way down from the root. */
  type Path = seq<string>

  /** The first slash from `i`, or the end. */
  function SlashFrom(s: string, i: nat): (e: nat)
    requires i <= |s|
    ensures i <= e <= |s| && (forall j :: i <= j < e ==> s[j] != '/') && (e < |s| ==> s[e] == '/')
    decreases |s| - i
  {
    if i < |s| && s[i] != '/' then SlashFrom(s, i + 1) else i
  }

  function Part(s: string): seq<string>
  {
    if s == "" || s == "." then [] else [s]
  }

  /** What stands between slashes, without empty parts and single dots. */
  function Parts(s: string): seq<string>
    decreases |s|
  {
    var e := SlashFrom(s, 0);
    Part(s[..e]) + if e < |s| then Parts(s[e + 1..]) else []
  }

  /** Two dots lead up, but not above the root. */
  function Walk(p: Path, parts: seq<string>): Path
    decreases |parts|
  {
    if parts == [] then p
    else if parts[0] == ".." then Walk(if p == [] then [] else p[..|p| - 1], parts[1..])
    else Walk(p + [parts[0]], parts[1..])
  }

  /** Where a name leads from a directory; a slash at its front leads to the root. */
  function At(p: Path, s: string): Path
  {
    Walk(if s != [] && s[0] == '/' then [] else p, Parts(s))
  }

  predicate Slashless(s: string)
  {
    forall i :: 0 <= i < |s| ==> s[i] != '/'
  }

  /** The name of a single directory. */
  predicate Plain(s: string)
  {
    Slashless(s) && s != "" && s != "." && s != ".."
  }

  lemma {:induction false} PartsOfSlashless(s: string)
    requires Slashless(s)
    ensures Parts(s) == if s == "" || s == "." then [] else [s]
  {
    assert s[..|s|] == s;
  }

  /** A name without slashes leads one down, nowhere, or one up. */
  lemma {:induction false} SlashlessAt(p: Path, s: string)
    requires Slashless(s)
    ensures At(p, s) == if Plain(s) then p + [s] else if s != ".." || p == [] then p else p[..|p| - 1]
  {
    PartsOfSlashless(s);
    var start := if s != [] && s[0] == '/' then [] else p;
    assert start == p;
    assert [s][1..] == [];
    var up := if p == [] then [] else p[..|p| - 1];
    assert Walk(p, []) == p && Walk(p + [s], []) == p + [s] && Walk(up, []) == up;
    assert Walk(p, [s]) == if s == ".." then up else p + [s];
  }

  lemma {:induction false} WalkOn(p: Path, first: seq<string>, rest: seq<string>)
    ensures Walk(p, first + rest) == Walk(Walk(p, first), rest)
    decreases |first|
  {
    if first == [] {
      assert first + rest == rest;
    } else {
      assert (first + rest)[1..] == first[1..] + rest && (first + rest)[0] == first[0];
      WalkOn(if first[0] == ".." then (if p == [] then [] else p[..|p| - 1]) else p + [first[0]], first[1..], rest);
    }
  }

  lemma {:induction false} SlashIsAt(s: string, i: nat, e: nat)
    requires i <= e <= |s| && (forall j :: i <= j < e ==> s[j] != '/') && (e < |s| ==> s[e] == '/')
    ensures SlashFrom(s, i) == e
  {
  }

  /** The parts before and behind the first slash. */
  lemma {:induction false} PartsAround(s: string, e: nat)
    requires e <= |s| && (forall i :: 0 <= i < e ==> s[i] != '/') && (e < |s| ==> s[e] == '/')
    ensures Parts(s) == Part(s[..e]) + if e < |s| then Parts(s[e + 1..]) else []
  {
    SlashIsAt(s, 0, e);
  }

  lemma {:induction false} PartsJoined(a: string, b: string)
    ensures Parts(a + "/" + b) == Parts(a) + Parts(b)
    decreases |a|
  {
    hide Parts;
    var s, e := a + "/" + b, SlashFrom(a, 0);
    assert s[..e] == a[..e];
    PartsAround(a, e);
    PartsAround(s, e);
    if e < |a| {
      assert s[e + 1..] == a[e + 1..] + "/" + b;
      PartsJoined(a[e + 1..], b);
    } else {
      assert s[e + 1..] == b;
    }
  }

  lemma {:induction false} NoParts()
    ensures Parts([]) == []
  {
  }

  /** One name after the other, joined by a slash; and a slash at the front leads to the root. */
  lemma {:induction false} JoinedAt(p: Path, a: string, b: string)
    requires a != [] && a[0] != '/'
    ensures (b == [] || b[0] != '/') ==> At(At(p, a), b) == At(p, a + "/" + b)
    ensures At(p, "/" + b) == At([], b)
  {
    hide Parts, Walk;
    PartsJoined(a, b);
    WalkOn(p, Parts(a), Parts(b));
    PartsJoined([], b);
    assert [] + "/" + b == "/" + b;
    NoParts();
    assert [] + Parts(b) == Parts(b);
  }

  /** A path one below another. */
  predicate Below(p: Path, q: Path)
  {
    |q| == |p| + 1 && q[..|p|] == p
  }

  lemma {:induction false} BelowByOneName(p: Path, s: string)
    requires Slashless(s)
    ensures Below(p, At(p, s)) <==> Plain(s)
  {
    SlashlessAt(p, s);
    assert (p + [s])[..|p|] == p;
  }

  lemma {:induction false} WalkDown(p: Path, parts: seq<string>)
    requires ".." !in parts
    ensures Walk(p, parts) == p + parts
    decreases |parts|
  {
    if parts == [] {
    } else {
      WalkDown(p + [parts[0]], parts[1..]);
      assert p + [parts[0]] + parts[1..] == p + parts;
    }
  }

  lemma {:induction false} PartsOfTwo(a: string, b: string)
    requires Plain(a) && Plain(b)
    ensures Parts(a + "/" + b) == [a, b] && !Slashless(a + "/" + b)
  {
    var s := a + "/" + b;
    assert s[|a|] == '/' && s[..|a|] == a && s[|a| + 1..] == b;
    PartsAround(s, |a|);
    PartsOfSlashless(b);
  }

  lemma {:induction false} JoinedSlash(s: string, t: string, e: nat)
    requires e <= |t| && (forall i :: 0 <= i < e ==> t[i] != '/') && (e < |t| ==> t[e] == '/') && Slashless(s)
    ensures var all, f := s + t, |s| + e;
      && (forall i :: 0 <= i < f ==> all[i] != '/') && (e < |t| ==> all[f] == '/' && all[f + 1..] == t[e + 1..])
      && all[..f] == s + t[..e]
  {
  }

  /** A longer ending makes no part that leads up. */
  lemma {:induction false} EndingLeadsDown(s: string, ending: string)
    requires Slashless(ending) && |ending| >= 3 && ".." !in Parts(s)
    ensures ".." !in Parts(s + ending)
    decreases |s|
  {
    hide Parts;
    var e := SlashFrom(s, 0);
    PartsAround(s, e);
    if e == |s| {
      JoinedSlash(s, ending, |ending|);
      PartsAround(s + ending, |s + ending|);
      assert (s + ending)[..|s + ending|] == s + ending;
    } else {
      assert (s + ending)[..e] == s[..e] && (s + ending)[e + 1..] == s[e + 1..] + ending;
      PartsAround(s + ending, e);
      EndingLeadsDown(s[e + 1..], ending);
    }
  }

  /** A longer beginning goes into the first part alone. */
  lemma {:induction false} BeginningIsFirst(beginning: string, s: string)
    requires Slashless(beginning) && |beginning| >= 3 && ".." !in Parts(s)
    ensures var parts := Parts(beginning + s);
      parts != [] && beginning <= parts[0] && ".." !in parts
  {
    hide Parts;
    var e := SlashFrom(s, 0);
    PartsAround(s, e);
    JoinedSlash(beginning, s, e);
    PartsAround(beginning + s, |beginning| + e);
  }

  lemma {:induction false} OtherParent(p: Path, q: Path, h: string, g: string)
    requires p != q
    ensures p + [h] != q + [g]
  {
    assert |p| == |q| ==> (p + [h])[..|p|] == p && (q + [g])[..|p|] == q;
  }

  lemma {:induction false} OtherEnd(p: Path, h: string, q: Path, g: string)
    requires h != g
    ensures p + [h] != q + [g]
  {
    assert |p| == |q| ==> (p + [h])[|p|] == h && (q + [g])[|p|] == g;
  }

  // ---------- Paths that a fresh name is not on ----------

  lemma {:induction false} NotOnBeginning(h: string, p: Path, q: Path)
    requires h !in q && p <= q
    ensures h !in p
  {
    assert forall i :: 0 <= i < |p| ==> p[i] == q[i];
  }

  /** A path that ends in a name nothing else has is no beginning of any other path. */
  lemma {:induction false} OnlyBeginning(p: Path, h: string, q: Path, g: string)
    requires h !in q
    ensures p + [h] <= q + [g] <==> p == q && h == g
  {
    if p + [h] <= q + [g] {
      assert (p + [h])[|p|] == (q + [g])[|p|];
      assert |p| == |q| by {
        assert forall i :: 0 <= i < |q| ==> (q + [g])[i] == q[i] != h;
      }
      assert p == (p + [h])[..|p|] == (q + [g])[..|p|] == q;
    }
  }
}
