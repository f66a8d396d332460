/** Semantic versions and component keys, with the strings they are printed to and parsed from. */
module Keys {
  import opened Wrappers

  datatype SemanticVersion = SemanticVersion(branch: string, apiVersion: int, incVersion: int)

  datatype MetaKey = MetaKey(componentType: string, componentName: string, componentVersion: SemanticVersion)

  // ---------- Printing ----------

  function Digit(d: nat): (c: char)
    requires d < 10
    ensures '0' <= c <= '9'
  {
    '0' + d as char
  }

  predicate IsDigit(c: char)
  {
    '0' <= c <= '9'
  }

  function Decimal(n: nat): (s: string)
    ensures s != [] && forall i :: 0 <= i < |s| ==> IsDigit(s[i])
  {
    if n < 10 then [Digit(n)] else Decimal(n / 10) + [Digit(n % 10)]
  }

  function IntString(n: int): string
  {
    if n < 0 then "-" + Decimal(-n) else Decimal(n)
  }

  function VersionString(v: SemanticVersion): string
  {
    v.branch + "." + IntString(v.apiVersion) + "." + IntString(v.incVersion)
  }

  function KeyString(k: MetaKey): string
  {
    k.componentType + "::" + k.componentName + "::" + VersionString(k.componentVersion)
  }

  // ---------- Parsing ----------

  /** White space within ASCII, and the further separators that count as white space. */
  predicate IsSpace(c: char)
  {
    '\t' <= c <= '\r' || '\U{1c}' <= c <= ' ' || c == '\U{85}' || c == '\U{a0}' || c == '\U{1680}'
    || '\U{2000}' <= c <= '\U{200a}' || c == '\U{2028}' || c == '\U{2029}' || c == '\U{202f}' || c == '\U{205f}'
    || c == '\U{3000}'
  }

  predicate Solid(s: string)
  {
    forall i :: 0 <= i < |s| ==> !IsSpace(s[i])
  }

  /** The end of the run of digits from `i`. */
  function DigitsEnd(s: string, i: nat): (e: nat)
    requires i <= |s|
    ensures i <= e <= |s| && (forall j :: i <= j < e ==> IsDigit(s[j])) && (e < |s| ==> !IsDigit(s[e]))
    decreases |s| - i
  {
    if i < |s| && IsDigit(s[i]) then DigitsEnd(s, i + 1) else i
  }

  /** The end of the run without white space from `i`. */
  function SolidEnd(s: string, i: nat): (e: nat)
    requires i <= |s|
    ensures i <= e <= |s| && (forall j :: i <= j < e ==> !IsSpace(s[j])) && (e < |s| ==> IsSpace(s[e]))
    decreases |s| - i
  {
    if i < |s| && !IsSpace(s[i]) then SolidEnd(s, i + 1) else i
  }

  function Number(s: string): nat
    requires forall i :: 0 <= i < |s| ==> IsDigit(s[i])
  {
    if s == [] then 0 else
    assert IsDigit(s[|s| - 1]);
    10 * Number(s[..|s| - 1]) + (s[|s| - 1] as int - '0' as int)
  }

  /** Two numbers, each after a dot, from position `k`. */
  predicate NumbersAt(s: string, k: nat)
  {
    && k < |s| && s[k] == '.'
    && var e := DigitsEnd(s, k + 1);
       && k + 1 < e < |s| && s[e] == '.'
       && e + 1 < DigitsEnd(s, e + 1)
  }

  predicate Separator(s: string, i: nat)
  {
    i + 2 <= |s| && s[i] == ':' && s[i + 1] == ':'
  }

  /** The last position after `from`, up to `to`, where `p` holds: what a greedy group comes to. */
  function Last(from: nat, upTo: nat, p: nat -> bool): (r: Option<nat>)
    ensures r.None? ==> (forall x :: from < x <= upTo ==> !p(x))
    ensures r.Some? ==> from < r.value <= upTo && p(r.value) && (forall x :: r.value < x <= upTo ==> !p(x))
    decreases upTo
  {
    if upTo <= from then None else if p(upTo) then Some(upTo) else Last(from, upTo - 1, p)
  }

  /** The end of a branch that starts at `from`. */
  function BranchEnd(s: string, from: nat): (r: Option<nat>)
    requires from <= |s|
    ensures r.None? ==> (forall k :: from < k <= SolidEnd(s, from) ==> !NumbersAt(s, k))
    ensures r.Some? ==> from < r.value <= SolidEnd(s, from) && NumbersAt(s, r.value)
    ensures r.Some? ==> (forall k :: r.value < k <= SolidEnd(s, from) ==> !NumbersAt(s, k))
  {
    var p := (k: nat) => NumbersAt(s, k);
    assert forall k: nat {:trigger NumbersAt(s, k)} :: p(k) == NumbersAt(s, k);
    Last(from, SolidEnd(s, from), p)
  }

  predicate NameStops(s: string, j: nat)
  {
    Separator(s, j) && BranchEnd(s, j + 2).Some?
  }

  /** The end of a name that starts at `from` and has a version behind it. */
  function NameEnd(s: string, from: nat): (r: Option<nat>)
    requires from <= |s|
    ensures r.None? ==> (forall j :: from < j <= SolidEnd(s, from) ==> !NameStops(s, j))
    ensures r.Some? ==> from < r.value <= SolidEnd(s, from) && NameStops(s, r.value)
    ensures r.Some? ==> (forall j :: r.value < j <= SolidEnd(s, from) ==> !NameStops(s, j))
  {
    var p := (j: nat) => NameStops(s, j);
    assert forall j: nat {:trigger NameStops(s, j)} :: p(j) == NameStops(s, j);
    Last(from, SolidEnd(s, from), p)
  }

  predicate TypeStops(s: string, i: nat)
  {
    Separator(s, i) && NameEnd(s, i + 2).Some?
  }

  /** The end of a type that has a name and a version behind it. */
  function TypeEnd(s: string): (r: Option<nat>)
    ensures r.None? ==> (forall i :: 0 < i <= SolidEnd(s, 0) ==> !TypeStops(s, i))
    ensures r.Some? ==> 0 < r.value <= SolidEnd(s, 0) && TypeStops(s, r.value)
    ensures r.Some? ==> (forall i :: r.value < i <= SolidEnd(s, 0) ==> !TypeStops(s, i))
  {
    var p := (i: nat) => TypeStops(s, i);
    assert forall i: nat {:trigger TypeStops(s, i)} :: p(i) == TypeStops(s, i);
    Last(0, SolidEnd(s, 0), p)
  }

  datatype ParseError = NoMatch

  function VersionBetween(s: string, from: nat, k: nat): SemanticVersion
    requires from <= k && NumbersAt(s, k)
  {
    var e := DigitsEnd(s, k + 1);
    SemanticVersion(s[from..k], Number(s[k + 1..e]), Number(s[e + 1..DigitsEnd(s, e + 1)]))
  }

  /** The greedy match of a version string; what follows the second number is ignored. */
  function ParseVersion(s: string): Result<SemanticVersion, ParseError>
  {
    match BranchEnd(s, 0)
    case None => Err(NoMatch)
    case Some(k) => Ok(VersionBetween(s, 0, k))
  }

  /** The greedy match of a key with its version. */
  function ParseKey(s: string): Result<MetaKey, ParseError>
  {
    match TypeEnd(s)
    case None => Err(NoMatch)
    case Some(i) =>
      var j := NameEnd(s, i + 2).value;
      var k := BranchEnd(s, j + 2).value;
      Ok(MetaKey(s[..i], s[i + 2..j], VersionBetween(s, j + 2, k)))
  }

  // ---------- Round trips ----------

  lemma {:induction false} NumberOfDecimal(n: nat)
    ensures Number(Decimal(n)) == n
  {
    if n >= 10 {
      NumberOfDecimal(n / 10);
      assert Decimal(n)[..|Decimal(n)| - 1] == Decimal(n / 10);
    } else {
      assert Decimal(n)[..0] == [];
    }
  }

  /** The digits `d` stand at `i` in `s`, and no digit follows. */
  predicate DigitsAt(s: string, i: nat, d: string)
  {
    && i + |d| <= |s| && s[i..i + |d|] == d && (forall j :: 0 <= j < |d| ==> IsDigit(d[j]))
    && (i + |d| < |s| ==> !IsDigit(s[i + |d|]))
  }

  lemma {:induction false} DigitsFound(s: string, i: nat, d: string)
    requires DigitsAt(s, i, d)
    ensures DigitsEnd(s, i) == i + |d|
    ensures forall k :: i <= k < i + |d| ==> s[k] != '.'
  {
    assert forall j :: i <= j < i + |d| ==> s[j] == s[i..i + |d|][j - i];
  }

  lemma {:induction false} NumbersFound(s: string, p: nat, da: string, db: string)
    requires p < |s| && s[p] == '.' && da != [] && DigitsAt(s, p + 1, da)
    requires p + 1 + |da| < |s| && s[p + 1 + |da|] == '.' && db != [] && DigitsAt(s, p + 2 + |da|, db)
    requires |s| == p + 2 + |da| + |db|
    ensures NumbersAt(s, p)
    ensures forall k :: p < k <= |s| ==> !NumbersAt(s, k)
    ensures forall from :: 0 <= from <= p ==>
      VersionBetween(s, from, p) == SemanticVersion(s[from..p], Number(da), Number(db))
  {
    DigitsFound(s, p + 1, da);
    DigitsFound(s, p + 2 + |da|, db);
    assert s[p + 2 + |da|..p + 2 + |da| + |db|] == s[p + 2 + |da|..];
    hide Number, DigitsEnd;
  }

  /** The two numbers at the end of a printed version are found, and read back, where they were printed. */
  lemma {:induction false} PrintedNumbers(prefix: string, a: nat, b: nat)
    ensures var s := prefix + "." + Decimal(a) + "." + Decimal(b);
      && NumbersAt(s, |prefix|)
      && (forall k :: |prefix| < k <= |s| ==> !NumbersAt(s, k))
      && forall from :: 0 <= from <= |prefix|
          ==> VersionBetween(s, from, |prefix|) == SemanticVersion(prefix[from..], a, b)
  {
    hide Decimal, NumbersAt, VersionBetween, DigitsEnd, Number;
    var da, db := Decimal(a), Decimal(b);
    var s := prefix + "." + da + "." + db;
    var p := |prefix|;
    assert s[p + 1..p + 1 + |da|] == da && s[p + 2 + |da|..p + 2 + |da| + |db|] == db;
    NumbersFound(s, p, da, db);
    NumberOfDecimal(a);
    NumberOfDecimal(b);
    assert forall from :: 0 <= from <= p ==> s[from..p] == prefix[from..];
  }

  /**
   * No two colons in or right before `x` that could be taken for the separator: a name or a branch of more than one
   * character does not begin with a colon, and two colons within it are its end.
   */
  predicate Separable(x: string)
  {
    && x != []
    && (|x| >= 2 ==> x[0] != ':')
    && forall q :: 0 <= q && q + 2 < |x| ==> !Separator(x, q)
  }

  predicate Printable(k: MetaKey)
  {
    && Solid(k.componentType) && Solid(k.componentName) && Solid(k.componentVersion.branch)
    && k.componentType != [] && Separable(k.componentName) && Separable(k.componentVersion.branch)
    && k.componentVersion.apiVersion >= 0 && k.componentVersion.incVersion >= 0
  }

  lemma {:induction false} SolidRun(s: string, i: nat)
    requires Solid(s) && i <= |s|
    ensures SolidEnd(s, i) == |s|
  {
  }

  // ---------- Where the groups of a printed key end ----------

  /** Parts of a key before its numbers. */
  datatype Layout = Layout(s: string, a: nat, p: nat, q: nat)

  /** A text without white space: a separator at `a` and at `p`, and two last numbers at `q`. */
  predicate Laid(l: Layout)
  {
    && Solid(l.s) && 0 < l.a && l.a + 2 < l.p && l.p + 2 < l.q <= |l.s|
    && Separator(l.s, l.a) && Separator(l.s, l.p)
    && NumbersAt(l.s, l.q)
    && (forall k :: l.q < k <= |l.s| ==> !NumbersAt(l.s, k))
  }

  /** No separator after the one at `i` that leaves a character before `q`. */
  predicate Clear(s: string, i: nat, q: nat)
  {
    forall j :: i < j && j + 2 < q ==> !Separator(s, j)
  }

  lemma {:induction false} ClearIsSeparable(s: string, i: nat, q: nat)
    requires Separator(s, i) && i + 2 < q <= |s|
    ensures Clear(s, i, q) <==> Separable(s[i + 2..q])
  {
    var x := s[i + 2..q];
    if Clear(s, i, q) {
      if |x| >= 2 && x[0] == ':' {
        assert Separator(s, i + 1);
      }
      forall r | 0 <= r && r + 2 < |x|
        ensures !Separator(x, r)
      {
        assert !Separator(s, i + 2 + r);
      }
    } else {
      var j: nat :| i < j && j + 2 < q && Separator(s, j);
      if j == i + 1 {
        assert x[0] == s[i + 2] == ':';
      } else {
        assert Separator(x, j - i - 2);
      }
    }
  }

  lemma {:induction false} BranchFound(l: Layout, from: nat)
    requires Laid(l) && from <= |l.s|
    ensures BranchEnd(l.s, from) == if from < l.q then Some(l.q) else None
  {
    hide NumbersAt, BranchEnd;
    SolidRun(l.s, from);
  }

  lemma {:induction false} NameStopsAt(l: Layout, j: nat)
    requires Laid(l)
    ensures NameStops(l.s, j) <==> Separator(l.s, j) && j + 2 < l.q
  {
    hide NumbersAt;
    if Separator(l.s, j) {
      BranchFound(l, j + 2);
    }
  }

  /** The name ends before the separator at `p` exactly if no later separator fits. */
  lemma {:induction false} NameFound(l: Layout, from: nat)
    requires Laid(l) && from < l.p
    ensures NameEnd(l.s, from).Some?
    ensures NameEnd(l.s, from) == Some(l.p) <==> Clear(l.s, l.p, l.q)
  {
    hide NumbersAt, NameStops, NameEnd;
    SolidRun(l.s, from);
    NameStopsAt(l, l.p);
    forall j: nat
      ensures NameStops(l.s, j) <==> Separator(l.s, j) && j + 2 < l.q
    {
      NameStopsAt(l, j);
    }
  }

  lemma {:induction false} NoNameFound(l: Layout, from: nat)
    requires Laid(l) && Clear(l.s, l.p, l.q) && l.p <= from <= |l.s|
    ensures NameEnd(l.s, from) == None
  {
    hide NumbersAt, NameStops, NameEnd;
    forall j: nat | from < j
      ensures !NameStops(l.s, j)
    {
      NameStopsAt(l, j);
    }
  }

  lemma {:induction false} TypeStopsAt(l: Layout, i: nat)
    requires Laid(l) && Clear(l.s, l.p, l.q)
    ensures TypeStops(l.s, i) <==> Separator(l.s, i) && i + 2 < l.p
  {
    hide NumbersAt;
    if Separator(l.s, i) {
      if i + 2 < l.p {
        NameFound(l, i + 2);
      } else {
        NoNameFound(l, i + 2);
      }
    }
  }

  /** The type ends before the separator at `a` exactly if no later separator fits before the name's. */
  lemma {:induction false} TypeFound(l: Layout)
    requires Laid(l) && Clear(l.s, l.p, l.q)
    ensures TypeEnd(l.s) == Some(l.a) <==> Clear(l.s, l.a, l.p)
  {
    hide NumbersAt, TypeStops, TypeEnd;
    SolidRun(l.s, 0);
    forall i: nat
      ensures TypeStops(l.s, i) <==> Separator(l.s, i) && i + 2 < l.p
    {
      TypeStopsAt(l, i);
    }
  }

  // ---------- Keys ----------

  /** All parts are there, without white space, and no version number is negative. */
  predicate Complete(k: MetaKey)
  {
    && Solid(k.componentType) && Solid(k.componentName) && Solid(k.componentVersion.branch)
    && k.componentType != [] && k.componentName != [] && k.componentVersion.branch != []
    && k.componentVersion.apiVersion >= 0 && k.componentVersion.incVersion >= 0
  }

  function LayoutOf(k: MetaKey): Layout
  {
    var a := |k.componentType|;
    var p := a + 2 + |k.componentName|;
    Layout(KeyString(k), a, p, p + 2 + |k.componentVersion.branch|)
  }

  lemma {:induction false} SolidConcat(x: string, y: string)
    requires Solid(x) && Solid(y)
    ensures Solid(x + y)
  {
  }

  lemma {:induction false} KeyIsSolid(k: MetaKey)
    requires Complete(k)
    ensures Solid(KeyString(k))
  {
    var v := k.componentVersion;
    assert Solid(Decimal(v.apiVersion)) && Solid(Decimal(v.incVersion));
    SolidConcat(v.branch, ".");
    SolidConcat(v.branch + ".", Decimal(v.apiVersion));
    SolidConcat(v.branch + "." + Decimal(v.apiVersion), ".");
    SolidConcat(v.branch + "." + Decimal(v.apiVersion) + ".", Decimal(v.incVersion));
    SolidConcat(k.componentType, "::");
    SolidConcat(k.componentType + "::", k.componentName);
    SolidConcat(k.componentType + "::" + k.componentName, "::");
    SolidConcat(k.componentType + "::" + k.componentName + "::", VersionString(v));
  }

  lemma {:induction false} PrintedVersion(v: SemanticVersion)
    requires v.apiVersion >= 0 && v.incVersion >= 0
    ensures VersionString(v) == v.branch + "." + Decimal(v.apiVersion) + "." + Decimal(v.incVersion)
  {
  }

  lemma {:induction false} KeyStringIs(k: MetaKey)
    ensures KeyString(k) == k.componentType + "::" + k.componentName + "::" + VersionString(k.componentVersion)
  {
  }

  lemma {:induction false} Regroup(f: string, b: string, x: string, y: string)
    ensures f + (b + "." + x + "." + y) == f + b + "." + x + "." + y
  {
  }

  lemma {:induction false} KeyIsLaid(k: MetaKey)
    requires Complete(k)
    ensures var l := LayoutOf(k);
      && Laid(l)
      && l.s[..l.a] == k.componentType && l.s[l.a + 2..l.p] == k.componentName
      && l.s[l.p + 2..l.q] == k.componentVersion.branch
      && VersionBetween(l.s, l.p + 2, l.q) == k.componentVersion
  {
    hide Decimal, NumbersAt, VersionBetween;
    var l, v := LayoutOf(k), k.componentVersion;
    KeyIsSolid(k);
    var front := k.componentType + "::" + k.componentName + "::";
    var prefix := front + v.branch;
    assert l.s == prefix + "." + Decimal(v.apiVersion) + "." + Decimal(v.incVersion) by {
      hide KeyString, VersionString;
      assert VersionString(v) == v.branch + "." + Decimal(v.apiVersion) + "." + Decimal(v.incVersion) by {
        PrintedVersion(v);
      }
      KeyStringIs(k);
      Regroup(front, v.branch, Decimal(v.apiVersion), Decimal(v.incVersion));
    }
    PrintedNumbers(prefix, v.apiVersion, v.incVersion);
    assert prefix[l.p + 2..] == v.branch;
    assert l.s[..l.a] == k.componentType && l.s[l.a + 2..l.p] == k.componentName && l.s[l.p + 2..l.q] == v.branch;
    assert l.s[l.a] == ':' && l.s[l.a + 1] == ':' && l.s[l.p] == ':' && l.s[l.p + 1] == ':';
  }

  lemma {:induction false} SolidSlice(s: string, i: nat, j: nat)
    requires i <= j <= |s| && j <= SolidEnd(s, i)
    ensures Solid(s[i..j])
  {
    hide SolidEnd;
  }

  /** Whatever is parsed is complete. */
  lemma {:induction false} ParsedIsComplete(s: string)
    requires ParseKey(s).Ok?
    ensures Complete(ParseKey(s).value)
  {
    hide NumbersAt, SolidEnd, Solid, NameEnd, TypeEnd, BranchEnd, Separator, Number, DigitsEnd;
    var i := TypeEnd(s).value;
    var j := NameEnd(s, i + 2).value;
    var k := BranchEnd(s, j + 2).value;
    SolidSlice(s, 0, i);
    SolidSlice(s, i + 2, j);
    SolidSlice(s, j + 2, k);
    assert s[0..i] == s[..i];
  }

  lemma {:induction false} LayoutBounds(l: Layout)
    requires Laid(l)
    ensures 0 < l.a && l.a + 2 < l.p && l.p + 2 < l.q <= |l.s|
  {
  }

  lemma {:induction false} ParsedGroups(k: MetaKey)
    requires ParseKey(KeyString(k)) == Ok(k)
    ensures var l := LayoutOf(k);
      TypeEnd(l.s) == Some(l.a) && l.a + 2 <= |l.s| && NameEnd(l.s, l.a + 2) == Some(l.p)
  {
    hide NumbersAt, NameStops, TypeEnd, NameEnd, BranchEnd, VersionBetween, KeyString;
    var l := LayoutOf(k);
    var i := TypeEnd(l.s).value;
    assert |l.s[..i]| == |k.componentType|;
    var j := NameEnd(l.s, i + 2).value;
    assert |l.s[i + 2..j]| == |k.componentName|;
  }

  lemma {:induction false} Groups(k: MetaKey)
    requires Complete(k) && Laid(LayoutOf(k))
    ensures var l := LayoutOf(k);
      ParseKey(l.s) == Ok(k) <==> Clear(l.s, l.p, l.q) && Clear(l.s, l.a, l.p)
  {
    hide NumbersAt, NameStops, TypeStops, TypeEnd, NameEnd, BranchEnd, VersionBetween, Laid, Clear, KeyString, Complete;
    var l := LayoutOf(k);
    LayoutBounds(l);
    if ParseKey(l.s) == Ok(k) {
      ParsedGroups(k);
      NameFound(l, l.a + 2);
      TypeFound(l);
    } else if Clear(l.s, l.p, l.q) && Clear(l.s, l.a, l.p) {
      KeyIsLaid(k);
      TypeFound(l);
      NameFound(l, l.a + 2);
      BranchFound(l, l.p + 2);
    }
  }

  /** Parsing inverts printing exactly for the printable keys. */
  lemma {:induction false} KeyRoundTrip(k: MetaKey)
    ensures ParseKey(KeyString(k)) == Ok(k) <==> Printable(k)
  {
    hide NumbersAt, NameStops, TypeStops, VersionBetween, KeyString;
    var s, l := KeyString(k), LayoutOf(k);
    if ParseKey(s) == Ok(k) {
      ParsedIsComplete(s);
    }
    if Complete(k) {
      KeyIsLaid(k);
      ClearIsSeparable(s, l.p, l.q);
      ClearIsSeparable(s, l.a, l.p);
      Groups(k);
    }
  }

  /** Printable keys are equal exactly if their strings are. */
  lemma {:induction false} KeyStringsAreUnique(k: MetaKey, other: MetaKey)
    requires Printable(k) && Printable(other)
    ensures KeyString(k) == KeyString(other) <==> k == other
  {
    hide Printable, KeyString, ParseKey;
    KeyRoundTrip(k);
    KeyRoundTrip(other);
  }

  /** Two different keys, neither empty nor with white space, that print the same string. */
  lemma {:induction false} AmbiguousKeys() returns (k: MetaKey, other: MetaKey)
    ensures k != other && Complete(k) && Complete(other) && KeyString(k) == KeyString(other)
  {
    var v := SemanticVersion("master", 0, 0);
    k, other := MetaKey("a", "b::c", v), MetaKey("a::b", "c", v);
    assert k.componentName[1] == ':' && other.componentName[0] == 'c';
    assert "a" + "::" + "b::c" == "a::b" + "::" + "c";
  }

  /** Another way to cut the string of a key: separators at `a` and `p` with something before, between and behind. */
  predicate OtherCut(l: Layout, a: nat, p: nat)
  {
    && 0 < a && a + 2 < p && p + 2 < l.q && Separator(l.s, a) && Separator(l.s, p)
    && (a != l.a || p != l.p)
  }

  /** The key that another cut spells. */
  function Recut(k: MetaKey, a: nat, p: nat): MetaKey
    requires Complete(k) && Laid(LayoutOf(k)) && OtherCut(LayoutOf(k), a, p)
  {
    var l := LayoutOf(k);
    MetaKey(l.s[..a], l.s[a + 2..p], k.componentVersion.(branch := l.s[p + 2..l.q]))
  }

  lemma {:induction false} SolidPart(s: string, i: nat, j: nat)
    requires Solid(s) && i <= j <= |s|
    ensures Solid(s[i..j])
  {
  }

  lemma {:induction false} Rejoined(s: string, a: nat, p: nat, q: nat)
    requires Separator(s, a) && Separator(s, p) && a + 2 <= p && p + 2 <= q <= |s|
    ensures s == s[..a] + "::" + s[a + 2..p] + "::" + s[p + 2..q] + s[q..]
  {
    assert s[a..a + 2] == "::" && s[p..p + 2] == "::";
    assert s == s[..a] + s[a..a + 2] + s[a + 2..p] + s[p..p + 2] + s[p + 2..q] + s[q..];
  }

  lemma {:induction false} KeyPrefix(k: MetaKey)
    requires k.componentVersion.apiVersion >= 0 && k.componentVersion.incVersion >= 0
    ensures var v := k.componentVersion;
      var prefix := k.componentType + "::" + k.componentName + "::" + v.branch;
      var numbers := "." + Decimal(v.apiVersion) + "." + Decimal(v.incVersion);
      && KeyString(k) == prefix + numbers && |prefix| == LayoutOf(k).q
      && KeyString(k)[LayoutOf(k).q..] == numbers
  {
    hide Decimal;
  }

  lemma {:induction false} RecutPrintsTheSame(k: MetaKey, a: nat, p: nat)
    requires Complete(k) && Laid(LayoutOf(k)) && OtherCut(LayoutOf(k), a, p)
    ensures var l := Recut(k, a, p);
      Complete(l) && l != k && KeyString(l) == KeyString(k)
  {
    hide NumbersAt, KeyString, Decimal, Solid, Separator;
    var l, r := LayoutOf(k), Recut(k, a, p);
    SolidPart(l.s, 0, a);
    SolidPart(l.s, a + 2, p);
    SolidPart(l.s, p + 2, l.q);
    assert l.s[0..a] == l.s[..a];
    KeyPrefix(k);
    KeyPrefix(r);
    Rejoined(l.s, a, p, l.q);
    assert |r.componentType| == a && |r.componentName| == p - a - 2;
  }

  lemma {:induction false} SameStringCutsElsewhere(k: MetaKey, l: MetaKey)
    requires Complete(k) && Complete(l) && KeyString(k) == KeyString(l) && k != l
    ensures OtherCut(LayoutOf(k), LayoutOf(l).a, LayoutOf(l).p)
  {
    hide NumbersAt, VersionBetween, KeyString;
    KeyIsLaid(k);
    KeyIsLaid(l);
    var x, y := LayoutOf(k), LayoutOf(l);
    assert x.q == y.q;
    if x.a == y.a && x.p == y.p {
      assert false;
    }
  }

  /** A complete key shares its string with another one exactly if the string can be cut differently. */
  lemma {:induction false} SharedStrings(k: MetaKey)
    requires Complete(k)
    ensures (exists l :: Complete(l) && l != k && KeyString(l) == KeyString(k))
       <==> exists a, p :: OtherCut(LayoutOf(k), a, p)
  {
    hide KeyString, Complete, OtherCut, Laid;
    KeyIsLaid(k);
    if l :| Complete(l) && l != k && KeyString(l) == KeyString(k) {
      SameStringCutsElsewhere(k, l);
    }
    if a, p :| OtherCut(LayoutOf(k), a, p) {
      RecutPrintsTheSame(k, a, p);
    }
  }

  lemma {:induction false} ParsedVersion(s: string)
    requires ParseVersion(s).Ok?
    ensures var v := ParseVersion(s).value;
      Solid(v.branch) && v.branch != [] && v.apiVersion >= 0 && v.incVersion >= 0
  {
    hide NumbersAt, SolidEnd;
  }

  /** Version strings are read back for every non-empty branch without white space. */
  lemma {:induction false} VersionRoundTrip(v: SemanticVersion)
    ensures ParseVersion(VersionString(v)) == Ok(v)
       <==> Solid(v.branch) && v.branch != [] && v.apiVersion >= 0 && v.incVersion >= 0
  {
    hide NumbersAt, VersionBetween, Decimal;
    var s := VersionString(v);
    if ParseVersion(s) == Ok(v) {
      ParsedVersion(s);
    }
    if Solid(v.branch) && v.branch != [] && v.apiVersion >= 0 && v.incVersion >= 0 {
      PrintedNumbers(v.branch, v.apiVersion, v.incVersion);
      SolidConcat(v.branch, ".");
      SolidConcat(v.branch + ".", Decimal(v.apiVersion));
      SolidConcat(v.branch + "." + Decimal(v.apiVersion), ".");
      SolidConcat(v.branch + "." + Decimal(v.apiVersion) + ".", Decimal(v.incVersion));
      SolidRun(s, 0);
      assert v.branch[0..] == v.branch;
    }
  }

  // ---------- Examples ----------

  lemma {:induction false} PrintedExamples()
    ensures VersionString(SemanticVersion("master", 1, 12)) == "master.1.12"
    ensures KeyString(MetaKey("library", "cnn", SemanticVersion("master", 1, 12))) == "library::cnn::master.1.12"
  {
    assert Decimal(1) == [Digit(1)] == "1";
    assert Decimal(12) == Decimal(1) + [Digit(2)] == "12";
    hide Decimal;
    var v := SemanticVersion("master", 1, 12);
    assert VersionString(v) == "master" + "." + "1" + "." + "12" == "master.1.12";
    assert "library" + "::" + "cnn" + "::" + "master.1.12" == "library::cnn::master.1.12";
  }
}
