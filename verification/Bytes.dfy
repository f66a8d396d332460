/** Bytes, little-endian integers and chunked byte streams. */
module Bytes {

  type Byte = x: int | 0 <= x < 256
  type U16 = x: int | 0 <= x < 0x1_0000
  type U32 = x: int | 0 <= x < 0x1_0000_0000
  type U64 = x: int | 0 <= x < 0x1_0000_0000_0000_0000

  type Bytes = seq<Byte>

  const MAX16 := 0xFFFF
  const MAX32 := 0xFFFF_FFFF
  const MAX64 := 0xFFFF_FFFF_FFFF_FFFF

  function Pow256(n: nat): (r: nat)
    ensures r > 0
  {
    if n == 0 then 1 else 256 * Pow256(n - 1)
  }

  /** The low `n` bytes of `v`, least significant first. */
  function LE(n: nat, v: nat): (s: Bytes)
    ensures |s| == n
  {
    if n == 0 then [] else [v % 256] + LE(n - 1, v / 256)
  }

  function FromLE(s: Bytes): (v: nat)
    ensures v < Pow256(|s|)
  {
    if s == [] then 0 else s[0] + 256 * FromLE(s[1..])
  }

  /** The least significant byte comes first. */
  lemma {:induction false} LeastFirst(v: nat)
    ensures LE(2, v) == [v % 256, v / 256 % 256]
    ensures LE(4, v) == [v % 256, v / 256 % 256, v / 256 / 256 % 256, v / 256 / 256 / 256 % 256]
  {
    var w := v / 256 / 256;
    assert LE(0, w) == [];
    assert LE(2, w) == [w % 256] + LE(1, w / 256) == [w % 256, w / 256 % 256];
    assert LE(2, v) == [v % 256] + LE(1, v / 256) == [v % 256, v / 256 % 256];
    assert LE(4, v) == [v % 256] + LE(3, v / 256) == [v % 256] + ([v / 256 % 256] + LE(2, w));
  }

  lemma {:induction false} FromLEOfLE(n: nat, v: nat)
    requires v < Pow256(n)
    ensures FromLE(LE(n, v)) == v
  {
    if n == 0 {
    } else {
      FromLEOfLE(n - 1, v / 256);
    }
  }

  lemma {:induction false} LEOfFromLE(s: Bytes)
    ensures LE(|s|, FromLE(s)) == s
  {
    if s == [] {
    } else {
      LEOfFromLE(s[1..]);
      assert FromLE(s) / 256 == FromLE(s[1..]);
    }
  }

  lemma {:induction false} Associative(a: Bytes, b: Bytes, c: Bytes)
    ensures (a + b) + c == a + (b + c)
  {
  }

  lemma {:induction false} Regroup(chunk: Bytes, i: nat, j: nat, tail: Bytes)
    requires i <= j <= |chunk|
    ensures chunk[i..] + tail == chunk[i..j] + (chunk[j..] + tail)
  {
    assert chunk[i..] == chunk[i..j] + chunk[j..];
  }

  lemma {:induction false} SliceOfSlice(b: Bytes, i: nat, j: nat, k: nat, l: nat)
    requires i <= j <= |b| && k <= l <= j - i
    ensures b[i..j][k..l] == b[i + k..i + l]
  {
    forall x | 0 <= x < l - k
      ensures b[i..j][k..l][x] == b[i + k..i + l][x]
    {
      assert b[i..j][k + x] == b[i + k + x];
    }
  }

  /** A slice of the second part of a concatenation. */
  lemma {:induction false} SliceRight(a: Bytes, b: Bytes, i: nat, j: nat)
    requires i <= j <= |b|
    ensures (a + b)[|a| + i..|a| + j] == b[i..j]
  {
  }

  lemma {:induction false} SliceLeft(a: Bytes, b: Bytes, i: nat, j: nat)
    requires i <= j <= |a|
    ensures (a + b)[i..j] == a[i..j]
  {
  }

  lemma {:induction false} FourPieces(w: Bytes, a: Bytes, b: Bytes, c: Bytes, d: Bytes)
    ensures w + a + b + c + d == w + (a + (b + (c + d)))
  {
  }

  lemma {:induction false} FivePieces(w: Bytes, a: Bytes, b: Bytes, c: Bytes, d: Bytes, e: Bytes)
    ensures w + a + b + c + d + e == w + (a + (b + (c + (d + e))))
  {
  }

  lemma {:induction false} SixPieces(w: Bytes, a: Bytes, b: Bytes, c: Bytes, d: Bytes, e: Bytes, f: Bytes)
    ensures w + a + b + c + d + e + f == w + (a + (b + (c + (d + (e + f)))))
  {
  }

  lemma {:induction false} WordWidths()
    ensures Pow256(2) == 0x1_0000
    ensures Pow256(4) == 0x1_0000_0000
    ensures Pow256(8) == 0x1_0000_0000_0000_0000
  {
  }

  /** The unsigned 16, 32 or 64-bit integer stored at a position. */
  function WordAt(b: Bytes, i: nat): U16
    requires i + 2 <= |b|
  {
    WordWidths();
    FromLE(b[i..i + 2])
  }

  function DwordAt(b: Bytes, i: nat): U32
    requires i + 4 <= |b|
  {
    WordWidths();
    FromLE(b[i..i + 4])
  }

  function QwordAt(b: Bytes, i: nat): U64
    requires i + 8 <= |b|
  {
    WordWidths();
    FromLE(b[i..i + 8])
  }

  /** All the bytes of a chunked stream, in order. */
  function Concat(chunks: seq<Bytes>): Bytes
  {
    if chunks == [] then [] else chunks[0] + Concat(chunks[1..])
  }

  lemma {:induction false} ConcatOfNothing()
    ensures Concat([]) == []
  {
  }

  lemma {:induction false} ConcatSnoc(chunks: seq<Bytes>, last: Bytes)
    ensures Concat(chunks + [last]) == Concat(chunks) + last
  {
    if chunks == [] {
      assert chunks + [last] == [last];
      assert Concat([last]) == last + Concat([]);
    } else {
      ConcatSnoc(chunks[1..], last);
      assert (chunks + [last])[1..] == chunks[1..] + [last];
    }
  }

  /** The stream holds no byte exactly when each of its chunks is empty. */
  lemma {:induction false} ConcatEmpty(chunks: seq<Bytes>)
    ensures Concat(chunks) == [] <==> forall i :: 0 <= i < |chunks| ==> chunks[i] == []
  {
    if chunks == [] {
    } else {
      ConcatEmpty(chunks[1..]);
      assert forall i :: 1 <= i < |chunks| ==> chunks[i] == chunks[1..][i - 1];
    }
  }
}
