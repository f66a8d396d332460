/** Fixed binary records in the manner of Python's `struct.Struct` with `<` byte order. */
module Struct {
  import opened Bytes

  /** A field value together with its format letter: H, I, Q or `s`. */
  datatype Field = H(h: U16) | I(i: U32) | Q(q: U64) | S(s: Bytes)

  function Width(f: Field): nat
  {
    match f
    case H(_) => 2
    case I(_) => 4
    case Q(_) => 8
    case S(s) => |s|
  }

  function PackField(f: Field): (b: Bytes)
    ensures |b| == Width(f)
  {
    match f
    case H(h) => LE(Width(f), h)
    case I(i) => LE(Width(f), i)
    case Q(q) => LE(Width(f), q)
    case S(s) => s
  }

  function Pack(fs: seq<Field>): Bytes
  {
    if fs == [] then [] else Pack(fs[..|fs| - 1]) + PackField(fs[|fs| - 1])
  }

  /** Where field `i` starts. */
  function Offset(fs: seq<Field>, i: nat): nat
    requires i <= |fs|
    decreases i
  {
    if i == 0 then 0 else Offset(fs, i - 1) + Width(fs[i - 1])
  }

  lemma {:induction false} OffsetOfPrefix(fs: seq<Field>, n: nat, i: nat)
    requires i <= n <= |fs|
    ensures Offset(fs[..n], i) == Offset(fs, i)
    decreases i
  {
    if i == 0 {
    } else {
      OffsetOfPrefix(fs, n, i - 1);
    }
  }

  lemma {:induction false} PackLength(fs: seq<Field>)
    ensures |Pack(fs)| == Offset(fs, |fs|)
  {
    if fs == [] {
    } else {
      PackLength(fs[..|fs| - 1]);
      OffsetOfPrefix(fs, |fs| - 1, |fs| - 1);
    }
  }

  lemma {:induction false} PackConcat(fs: seq<Field>, gs: seq<Field>)
    ensures Pack(fs + gs) == Pack(fs) + Pack(gs)
  {
    if gs == [] {
      assert fs + gs == fs;
    } else {
      var init, last := gs[..|gs| - 1], gs[|gs| - 1];
      assert (fs + gs)[..|fs + gs| - 1] == fs + init;
      PackConcat(fs, init);
      Associative(Pack(fs), Pack(init), PackField(last));
    }
  }

  lemma {:induction false} FieldBytes(fs: seq<Field>, i: nat)
    requires i < |fs|
    ensures Offset(fs, i) + Width(fs[i]) <= |Pack(fs)|
    ensures Pack(fs)[Offset(fs, i)..Offset(fs, i) + Width(fs[i])] == PackField(fs[i])
    decreases |fs|
  {
    hide PackField, Offset, Width;
    var init, last := fs[..|fs| - 1], PackField(fs[|fs| - 1]);
    assert Pack(fs) == Pack(init) + last;
    OffsetOfPrefix(fs, |fs| - 1, i);
    hide Pack;
    if i < |fs| - 1 {
      FieldBytes(init, i);
      SliceLeft(Pack(init), last, Offset(fs, i), Offset(fs, i) + Width(fs[i]));
    } else {
      PackLength(init);
      SliceRight(Pack(init), last, 0, |last|);
    }
  }

  /** Field `i` of a packed record, read back at its offset. */
  lemma {:induction false} FieldAt(fs: seq<Field>, i: nat)
    requires i < |fs|
    ensures var at := Offset(fs, i);
            && at + Width(fs[i]) <= |Pack(fs)|
            && match fs[i]
               case H(h) => WordAt(Pack(fs), at) == h
               case I(i) => DwordAt(Pack(fs), at) == i
               case Q(q) => QwordAt(Pack(fs), at) == q
               case S(s) => Pack(fs)[at..at + |s|] == s
  {
    FieldBytes(fs, i);
    WordWidths();
    match fs[i]
    case H(h) => FromLEOfLE(2, h);
    case I(i) => FromLEOfLE(4, i);
    case Q(q) => FromLEOfLE(8, q);
    case S(_) =>
  }
}
