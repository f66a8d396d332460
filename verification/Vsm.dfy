/** Version score matrices: for each component, the probability of each version coming next. */
module Vsm {
  const MAX_MAJOR_VERSION: nat := 3
  const MAX_MINOR_VERSION: nat := 3
  const NUM_PIPELINE_LENGTH: nat := 5

  datatype Version = Version(major: int, minor: int)

  predicate InRange(v: Version)
  {
    0 <= v.major <= MAX_MAJOR_VERSION && 0 <= v.minor <= MAX_MINOR_VERSION
  }

  type Row = seq<real>
  type Matrix = seq<Row>

  predicate Shaped(m: Matrix)
  {
    |m| == MAX_MAJOR_VERSION + 1 && forall i :: 0 <= i < |m| ==> |m[i]| == MAX_MINOR_VERSION + 1
  }

  function At(m: Matrix, v: Version): real
    requires Shaped(m) && InRange(v)
  {
    m[v.major][v.minor]
  }

  function Sum(row: Row): real
  {
    if row == [] then 0.0 else row[0] + Sum(row[1..])
  }

  function GrandSum(m: Matrix): real
  {
    if m == [] then 0.0 else Sum(m[0]) + GrandSum(m[1..])
  }

  predicate NonNegative(m: Matrix)
  {
    forall i, j :: 0 <= i < |m| && 0 <= j < |m[i]| ==> m[i][j] >= 0.0
  }

  /** A probability distribution over all versions. */
  predicate Distribution(m: Matrix)
  {
    Shaped(m) && NonNegative(m) && GrandSum(m) == 1.0
  }

  function AllVersions(): (vs: set<Version>)
    ensures forall v :: v in vs <==> InRange(v)
  {
    set i, j | 0 <= i <= MAX_MAJOR_VERSION && 0 <= j <= MAX_MINOR_VERSION :: Version(i, j)
  }

  // ---------- Sums ----------

  lemma {:induction false} SumOfNonNegative(row: Row, k: nat)
    requires forall j :: 0 <= j < |row| ==> row[j] >= 0.0
    requires k < |row|
    ensures 0.0 <= row[k] <= Sum(row)
    decreases |row|
  {
    if k > 0 {
      SumOfNonNegative(row[1..], k - 1);
    } else if |row| > 1 {
      SumOfNonNegative(row[1..], 0);
    }
  }

  lemma {:induction false} GrandSumBounds(m: Matrix, i: nat, j: nat)
    requires NonNegative(m) && i < |m| && j < |m[i]| && forall k :: 0 <= k < |m| ==> m[k] != []
    ensures 0.0 <= m[i][j] <= GrandSum(m)
    decreases |m|
  {
    SumOfNonNegative(m[0], if i == 0 then j else 0);
    if i > 0 {
      GrandSumBounds(m[1..], i - 1, j);
    } else if |m| > 1 {
      GrandSumBounds(m[1..], 0, 0);
    }
  }

  /** Scores stay far below the sentinel that stands for an absent component. */
  lemma {:induction false} ScoreAtMostOne(m: Matrix, v: Version)
    requires Distribution(m) && InRange(v)
    ensures 0.0 <= At(m, v) <= 1.0
  {
    GrandSumBounds(m, v.major, v.minor);
  }

  lemma {:induction false} SumOfUpdate(row: Row, j: nat, x: real)
    requires j < |row|
    ensures Sum(row[j := x]) == Sum(row) - row[j] + x
    decreases j
  {
    if j == 0 {
      assert row[0 := x][1..] == row[1..];
    } else {
      assert row[j := x][1..] == row[1..][j - 1 := x];
      SumOfUpdate(row[1..], j - 1, x);
    }
  }

  lemma {:induction false} GrandSumOfUpdate(m: Matrix, i: nat, row: Row)
    requires i < |m|
    ensures GrandSum(m[i := row]) == GrandSum(m) - Sum(m[i]) + Sum(row)
    decreases i
  {
    if i == 0 {
      assert m[0 := row][1..] == m[1..];
    } else {
      assert m[i := row][1..] == m[1..][i - 1 := row];
      GrandSumOfUpdate(m[1..], i - 1, row);
    }
  }

  function SetAt(m: Matrix, v: Version, x: real): (r: Matrix)
    requires Shaped(m) && InRange(v)
    ensures Shaped(r) && forall u :: InRange(u) ==> At(r, u) == if u == v then x else At(m, u)
  {
    m[v.major := m[v.major][v.minor := x]]
  }

  lemma {:induction false} GrandSumOfSetAt(m: Matrix, v: Version, x: real)
    requires Shaped(m) && InRange(v)
    ensures GrandSum(SetAt(m, v, x)) == GrandSum(m) - At(m, v) + x
  {
    SumOfUpdate(m[v.major], v.minor, x);
    GrandSumOfUpdate(m, v.major, m[v.major][v.minor := x]);
  }

  function Blend(a: real, x: real, b: real, y: real): real
  {
    a * x + b * y
  }

  lemma {:induction false} BlendAdds(a: real, p: real, q: real, b: real, s: real, t: real)
    ensures Blend(a, p, b, s) + Blend(a, q, b, t) == Blend(a, p + q, b, s + t)
  {
  }

  /** `a * m + b * e`, cell by cell. */
  function MixRow(a: real, m: Row, b: real, e: Row): (r: Row)
    requires |m| == |e|
    ensures |r| == |m| && forall j :: 0 <= j < |r| ==> r[j] == Blend(a, m[j], b, e[j])
  {
    seq(|m|, j requires 0 <= j < |m| => Blend(a, m[j], b, e[j]))
  }

  function Mix(a: real, m: Matrix, b: real, e: Matrix): (r: Matrix)
    requires |m| == |e| && forall i :: 0 <= i < |m| ==> |m[i]| == |e[i]|
    ensures |r| == |m| && forall i :: 0 <= i < |r| ==> r[i] == MixRow(a, m[i], b, e[i])
  {
    seq(|m|, i requires 0 <= i < |m| => MixRow(a, m[i], b, e[i]))
  }

  lemma {:induction false} MixRowTail(a: real, m: Row, b: real, e: Row)
    requires |m| == |e| > 0
    ensures MixRow(a, m, b, e)[1..] == MixRow(a, m[1..], b, e[1..])
  {
    hide Blend;
    var r, t := MixRow(a, m, b, e), MixRow(a, m[1..], b, e[1..]);
    forall j | 0 <= j < |t|
      ensures r[1..][j] == t[j]
    {
      assert m[1..][j] == m[j + 1] && e[1..][j] == e[j + 1];
    }
  }

  lemma {:induction false} SumOfMix(a: real, m: Row, b: real, e: Row)
    requires |m| == |e|
    ensures Sum(MixRow(a, m, b, e)) == Blend(a, Sum(m), b, Sum(e))
  {
    if m == [] {
    } else {
      hide Blend;
      MixRowTail(a, m, b, e);
      SumOfMix(a, m[1..], b, e[1..]);
      BlendAdds(a, m[0], Sum(m[1..]), b, e[0], Sum(e[1..]));
    }
  }

  lemma {:induction false} GrandSumOfMix(a: real, m: Matrix, b: real, e: Matrix)
    requires |m| == |e| && forall i :: 0 <= i < |m| ==> |m[i]| == |e[i]|
    ensures GrandSum(Mix(a, m, b, e)) == Blend(a, GrandSum(m), b, GrandSum(e))
  {
    if m == [] {
    } else {
      hide Blend, Sum;
      assert Mix(a, m, b, e)[1..] == Mix(a, m[1..], b, e[1..]);
      SumOfMix(a, m[0], b, e[0]);
      GrandSumOfMix(a, m[1..], b, e[1..]);
      BlendAdds(a, Sum(m[0]), GrandSum(m[1..]), b, Sum(e[0]), GrandSum(e[1..]));
    }
  }

  // ---------- Scaling ----------

  /** The matrix that is one on a set of versions and zero elsewhere. */
  function Indicator(vs: set<Version>): (e: Matrix)
    ensures Shaped(e) && forall v :: InRange(v) ==> At(e, v) == if v in vs then 1.0 else 0.0
  {
    seq(MAX_MAJOR_VERSION + 1, i requires i >= 0 =>
      seq(MAX_MINOR_VERSION + 1, j requires j >= 0 => if Version(i, j) in vs then 1.0 else 0.0))
  }

  lemma {:induction false} SameMatrix(m: Matrix, n: Matrix)
    requires Shaped(m) && Shaped(n) && forall v :: InRange(v) ==> At(m, v) == At(n, v)
    ensures m == n
  {
    forall i | 0 <= i < |m|
      ensures m[i] == n[i]
    {
      forall j | 0 <= j < |m[i]|
        ensures m[i][j] == n[i][j]
      {
        assert At(m, Version(i, j)) == At(n, Version(i, j));
      }
    }
  }

  lemma {:induction false} IndicatorOfOneMore(cells: set<Version>, v: Version)
    requires InRange(v)
    ensures SetAt(Indicator(cells), v, 1.0) == Indicator(cells + {v})
  {
    SameMatrix(SetAt(Indicator(cells), v, 1.0), Indicator(cells + {v}));
  }

  lemma {:induction false} SumOfZeros(row: Row)
    requires forall j :: 0 <= j < |row| ==> row[j] == 0.0
    ensures Sum(row) == 0.0
  {
    if row == [] {
    } else {
      SumOfZeros(row[1..]);
    }
  }

  lemma {:induction false} GrandSumOfZeroRows(m: Matrix)
    requires forall i :: 0 <= i < |m| ==> Sum(m[i]) == 0.0
    ensures GrandSum(m) == 0.0
  {
    if m == [] {
    } else {
      GrandSumOfZeroRows(m[1..]);
    }
  }

  lemma {:induction false} GrandSumOfZeros()
    ensures GrandSum(Indicator({})) == 0.0
  {
    var e := Indicator({});
    forall i | 0 <= i < |e|
      ensures Sum(e[i]) == 0.0
    {
      var row := e[i];
      forall j | 0 <= j < |row|
        ensures row[j] == 0.0
      {
        assert At(e, Version(i, j)) == 0.0;
      }
      SumOfZeros(row);
    }
    GrandSumOfZeroRows(e);
  }

  lemma {:induction false} IndicatorCounts(vs: set<Version>)
    requires vs <= AllVersions()
    ensures GrandSum(Indicator(vs)) == |vs| as real
    decreases |vs|
  {
    if vs == {} {
      GrandSumOfZeros();
    } else {
      var v :| v in vs;
      var rest := vs - {v};
      IndicatorCounts(rest);
      SameMatrix(Indicator(vs), SetAt(Indicator(rest), v, 1.0));
      GrandSumOfSetAt(Indicator(rest), v, 1.0);
    }
  }

  lemma {:induction false} SixteenVersions()
    ensures |AllVersions()| == 16
  {
    var cells := set i | 0 <= i < 16 :: Version(i / 4, i % 4);
    forall v
      ensures v in cells <==> InRange(v)
    {
      if InRange(v) {
        assert v == Version((4 * v.major + v.minor) / 4, (4 * v.major + v.minor) % 4);
      }
    }
    assert cells == AllVersions();
    var n := 0;
    var some: set<Version> := {};
    while n < 16
      invariant n <= 16 && some == (set i | 0 <= i < n :: Version(i / 4, i % 4)) && |some| == n
    {
      some := some + {Version(n / 4, n % 4)};
      n := n + 1;
    }
  }

  /** A share `alpha` of the probability moved evenly onto `vs`. */
  function Scaled(alpha: real, m: Matrix, vs: set<Version>): (r: Matrix)
    requires Shaped(m)
    ensures Shaped(r)
  {
    if vs == {} then m else Mix(1.0 - alpha, m, alpha / |vs| as real, Indicator(vs))
  }

  lemma {:induction false} ScaledByNothing(alpha: real, m: Matrix)
    requires Shaped(m)
    ensures Scaled(alpha, m, {}) == m
  {
  }

  lemma {:induction false} ScaledIsMix(alpha: real, m: Matrix, vs: set<Version>)
    requires Shaped(m) && vs != {}
    ensures Scaled(alpha, m, vs) == Mix(1.0 - alpha, m, alpha / |vs| as real, Indicator(vs))
  {
  }

  /** What scaling does to every cell. */
  lemma {:induction false} ScaledAt(alpha: real, m: Matrix, vs: set<Version>, v: Version)
    requires Shaped(m) && vs != {} && InRange(v)
    ensures At(Scaled(alpha, m, vs), v) == (1.0 - alpha) * At(m, v) + if v in vs then alpha / |vs| as real else 0.0
  {
    var e := Indicator(vs);
    assert At(e, v) == if v in vs then 1.0 else 0.0;
  }

  lemma {:induction false} ShareOfWhole(alpha: real, n: nat)
    requires n > 0 && alpha >= 0.0
    ensures alpha / n as real >= 0.0
    ensures Blend(1.0 - alpha, 1.0, alpha / n as real, n as real) == 1.0
  {
  }

  lemma {:induction false} Weighted(a: real, x: real, b: real, y: real)
    requires a >= 0.0 && x >= 0.0 && b >= 0.0 && y >= 0.0
    ensures Blend(a, x, b, y) >= 0.0
  {
  }

  lemma {:induction false} MixNonNegative(a: real, m: Matrix, b: real, e: Matrix)
    requires Shaped(m) && Shaped(e) && NonNegative(m) && NonNegative(e) && a >= 0.0 && b >= 0.0
    ensures NonNegative(Mix(a, m, b, e))
  {
    hide Blend;
    var r := Mix(a, m, b, e);
    forall i, j | 0 <= i < |r| && 0 <= j < |r[i]|
      ensures r[i][j] >= 0.0
    {
      Weighted(a, m[i][j], b, e[i][j]);
    }
  }

  lemma {:induction false} IndicatorNonNegative(vs: set<Version>)
    ensures NonNegative(Indicator(vs))
  {
    var e := Indicator(vs);
    forall i, j | 0 <= i < |e| && 0 <= j < |e[i]|
      ensures e[i][j] >= 0.0
    {
      assert At(e, Version(i, j)) >= 0.0;
    }
  }

  /** Scaling keeps a probability distribution. */
  lemma {:induction false} ScaledIsDistribution(alpha: real, m: Matrix, vs: set<Version>)
    requires Distribution(m) && 0.0 <= alpha <= 1.0 && vs <= AllVersions()
    ensures Distribution(Scaled(alpha, m, vs))
  {
    hide Blend, GrandSum, Indicator, Mix, NonNegative;
    if vs != {} {
      var b, e := alpha / |vs| as real, Indicator(vs);
      ShareOfWhole(alpha, |vs|);
      IndicatorCounts(vs);
      IndicatorNonNegative(vs);
      MixNonNegative(1.0 - alpha, m, b, e);
      GrandSumOfMix(1.0 - alpha, m, b, e);
    }
  }

  // ---------- Versions as indices ----------

  /** An index of a cell; negative ones count from the end. */
  predicate Indexable(v: Version)
  {
    && -1 - v.major <= MAX_MAJOR_VERSION && v.major <= MAX_MAJOR_VERSION
    && -1 - v.minor <= MAX_MINOR_VERSION && v.minor <= MAX_MINOR_VERSION
  }

  function Cell(v: Version): (c: Version)
    requires Indexable(v)
    ensures InRange(c) && (InRange(v) ==> c == v)
    ensures (c.major - v.major) % 4 == 0 && (c.minor - v.minor) % 4 == 0
  {
    Version(if v.major < 0 then v.major + MAX_MAJOR_VERSION + 1 else v.major,
            if v.minor < 0 then v.minor + MAX_MINOR_VERSION + 1 else v.minor)
  }

  function Cells(vs: set<Version>): (cells: set<Version>)
    ensures cells <= AllVersions() && (vs <= AllVersions() ==> cells == vs)
  {
    var cells := set v | v in vs && Indexable(v) :: Cell(v);
    assert vs <= AllVersions() ==> forall v :: v in vs ==> Indexable(v) && Cell(v) == v;
    cells
  }

  lemma {:induction false} NoCells()
    ensures Cells({}) == {}
  {
  }

  lemma {:induction false} CellsOfOneMore(vs: set<Version>, rest: set<Version>, v: Version)
    requires rest <= vs && v in rest && Indexable(v)
    ensures Cells(vs - rest) + {Cell(v)} == Cells(vs - (rest - {v}))
  {
    assert vs - (rest - {v}) == (vs - rest) + {v};
  }

  /** The share moved onto the cells of `vs`, in equal parts for each version: some is lost if two share a cell. */
  function Spread(alpha: real, m: Matrix, vs: set<Version>): (r: Matrix)
    requires Shaped(m)
    ensures Shaped(r)
  {
    if vs == {} then m else Mix(1.0 - alpha, m, alpha / |vs| as real, Indicator(Cells(vs)))
  }

  lemma {:induction false} SpreadIsScaled(alpha: real, m: Matrix, vs: set<Version>)
    requires Shaped(m) && vs <= AllVersions()
    ensures Spread(alpha, m, vs) == Scaled(alpha, m, vs)
  {
  }

  /** What this does to every cell. */
  lemma {:induction false} SpreadAt(alpha: real, m: Matrix, vs: set<Version>, v: Version)
    requires Shaped(m) && vs != {} && InRange(v) && forall u :: u in vs ==> Indexable(u)
    ensures At(Spread(alpha, m, vs), v)
         == (1.0 - alpha) * At(m, v) + if exists u :: u in vs && Cell(u) == v then alpha / |vs| as real else 0.0
  {
    var e := Indicator(Cells(vs));
    assert At(e, v) == if v in Cells(vs) then 1.0 else 0.0;
  }

  lemma {:induction false} SharesAddUp(alpha: real, n: nat, c: nat)
    requires n > 0
    ensures Blend(1.0 - alpha, 1.0, alpha / n as real, c as real) == 1.0 <==> alpha == 0.0 || c == n
  {
    var q := alpha / n as real;
    assert q * n as real == alpha;
    if c != n && q != 0.0 {
      assert q * (c as real - n as real) != 0.0;
    }
  }

  /** So scaling keeps a distribution if and only if no two versions share a cell, or nothing is moved. */
  lemma {:induction false} SpreadIsDistribution(alpha: real, m: Matrix, vs: set<Version>)
    requires Distribution(m) && 0.0 <= alpha <= 1.0 && vs != {}
    ensures Distribution(Spread(alpha, m, vs)) <==> alpha == 0.0 || |Cells(vs)| == |vs|
  {
    hide Blend, GrandSum, Indicator, Mix, NonNegative, Cells;
    var b, e := alpha / |vs| as real, Indicator(Cells(vs));
    IndicatorCounts(Cells(vs));
    IndicatorNonNegative(Cells(vs));
    ShareOfWhole(alpha, |vs|);
    MixNonNegative(1.0 - alpha, m, b, e);
    GrandSumOfMix(1.0 - alpha, m, b, e);
    SharesAddUp(alpha, |vs|, |Cells(vs)|);
  }

  // ---------- Runs ----------

  function Uniform(): (m: Matrix)
    ensures Shaped(m)
  {
    var cell := 1.0 / ((MAX_MAJOR_VERSION + 1) * (MAX_MINOR_VERSION + 1)) as real;
    seq(MAX_MAJOR_VERSION + 1, _ => seq(MAX_MINOR_VERSION + 1, _ => cell))
  }

  /** At first all versions are equally likely. */
  lemma {:induction false} UniformAt(v: Version)
    requires InRange(v)
    ensures At(Uniform(), v) == 1.0 / 16.0
  {
    assert ((MAX_MAJOR_VERSION + 1) * (MAX_MINOR_VERSION + 1)) as real == 16.0;
  }

  lemma {:induction false} UniformIsDistribution()
    ensures Distribution(Uniform())
  {
    var m := Uniform();
    assert 1.0 / 16 as real == 0.0625;
    forall i | 0 <= i < 4
      ensures m[i] == [0.0625, 0.0625, 0.0625, 0.0625]
    {
    }
    var row := [0.0625, 0.0625, 0.0625, 0.0625];
    assert row[1..] == [0.0625, 0.0625, 0.0625] && row[1..][1..] == [0.0625, 0.0625] && row[1..][1..][1..] == [0.0625];
    assert Sum(row) == 0.25;
    assert m == [row, row, row, row];
    assert m[1..] == [row, row, row] && m[1..][1..] == [row, row] && m[1..][1..][1..] == [row];
    assert GrandSum(m) == 1.0;
  }

  /** Any run of scalings of the uniform matrix ends in a probability distribution. */
  function ScaledBy(alpha: real, batches: seq<set<Version>>): (m: Matrix)
    ensures Shaped(m)
  {
    if batches == [] then Uniform() else
    var n := |batches| - 1;
    Scaled(alpha, ScaledBy(alpha, batches[..n]), batches[n])
  }

  lemma {:induction false} EveryRunIsDistribution(alpha: real, batches: seq<set<Version>>)
    requires 0.0 <= alpha <= 1.0 && forall k :: 0 <= k < |batches| ==> batches[k] <= AllVersions()
    ensures Distribution(ScaledBy(alpha, batches))
  {
    if batches == [] {
      UniformIsDistribution();
    } else {
      EveryRunIsDistribution(alpha, batches[..|batches| - 1]);
      ScaledIsDistribution(alpha, ScaledBy(alpha, batches[..|batches| - 1]), batches[|batches| - 1]);
    }
  }

  lemma {:induction false} VersionsAreIndices(vs: set<Version>)
    ensures vs <= AllVersions() ==> forall v :: v in vs ==> Indexable(v)
  {
  }

  /** The matrix with ones in the cells of the given versions; fails if one of them is no index. */
  method MarkCells(vs: set<Version>) returns (ok: bool, e: Matrix)
    ensures ok <==> forall v :: v in vs ==> Indexable(v)
    ensures ok ==> e == Indicator(Cells(vs))
  {
    hide GrandSum, Indicator, SetAt, Cells, Indexable;
    var rest := vs;
    e := Indicator({});
    assert vs - rest == {};
    NoCells();
    while rest != {}
      invariant rest <= vs && e == Indicator(Cells(vs - rest))
      invariant forall v :: v in vs - rest ==> Indexable(v)
      decreases |rest|
    {
      var v :| v in rest;
      if !Indexable(v) {
        return false, e;
      }
      IndicatorOfOneMore(Cells(vs - rest), Cell(v));
      CellsOfOneMore(vs, rest, v);
      e := SetAt(e, Cell(v), 1.0);
      rest := rest - {v};
    }
    assert vs - rest == vs;
    return true, e;
  }

  /** The scores of one component. */
  class VersionScores {
    const alpha: real
    var data: Matrix

    ghost predicate Valid()
      reads this
    {
      0.0 <= alpha <= 1.0 && Distribution(data)
    }

    constructor (alpha: real)
      ensures this.alpha == alpha && data == Uniform()
      ensures 0.0 <= alpha <= 1.0 ==> Valid()
    {
      this.alpha := alpha;
      data := Uniform();
      new;
      UniformIsDistribution();
    }

    /** Fails with an index error if the version is no index. */
    method ScaleEntry(v: Version) returns (ok: bool)
      requires Shaped(data)
      modifies this
      ensures ok <==> Indexable(v)
      ensures data == if ok then Scaled(alpha, old(data), {Cell(v)}) else old(data)
      ensures old(Valid()) ==> Valid()
    {
      hide GrandSum, NonNegative, Mix, Indicator;
      if !Indexable(v) {
        return false;
      }
      var e := Indicator({});
      e := SetAt(e, Cell(v), 1.0);
      SameMatrix(e, Indicator({Cell(v)}));
      if Valid() {
        ScaledIsDistribution(alpha, data, {Cell(v)});
      }
      assert |{Cell(v)}| == 1 && alpha / 1 as real == alpha;
      data := Mix(1.0 - alpha, data, alpha, e);
      return true;
    }

    /** Fails with an index error if one of the versions is no index. */
    method ScaleBatch(vs: set<Version>) returns (ok: bool)
      requires Shaped(data)
      modifies this
      ensures ok <==> forall v :: v in vs ==> Indexable(v)
      ensures data == if ok then Spread(alpha, old(data), vs) else old(data)
      ensures old(Valid()) ==> (Valid() <==> !ok || vs == {} || alpha == 0.0 || |Cells(vs)| == |vs|)
      ensures vs <= AllVersions() ==> ok && data == Scaled(alpha, old(data), vs)
    {
      hide GrandSum, NonNegative, Mix, Indicator, Scaled, Cells, Indexable;
      if |vs| <= 0 {
        ScaledByNothing(alpha, data);
        assert vs == {};
        return true;
      }
      var e;
      ok, e := MarkCells(vs);
      VersionsAreIndices(vs);
      if !ok {
        return;
      }
      if Valid() {
        SpreadIsDistribution(alpha, data, vs);
      }
      if vs <= AllVersions() {
        SpreadIsScaled(alpha, data, vs);
      }
      data := Mix(1.0 - alpha, data, alpha / |vs| as real, e);
      return true;
    }
  }
}
