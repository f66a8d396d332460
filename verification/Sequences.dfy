/** Sequences without duplicates, and the removal of one element. */
module Sequences {

  predicate NoDuplicates<T(==)>(s: seq<T>)
  {
    forall i, j :: 0 <= i < j < |s| ==> s[i] != s[j]
  }

  /** `s` without the first occurrence of `x`. */
  function Removed<T(==)>(s: seq<T>, x: T): (r: seq<T>)
    ensures x !in s ==> r == s
    ensures x in s ==> |r| == |s| - 1
    ensures forall y :: y in r ==> y in s
  {
    if s == [] then [] else if s[0] == x then s[1..] else [s[0]] + Removed(s[1..], x)
  }

  lemma {:induction false} ConcatAssociative<T>(a: seq<T>, b: seq<T>, c: seq<T>)
    ensures (a + b) + c == a + (b + c)
  {
  }

  lemma {:induction false} RemovedBehind<T>(s: seq<T>, x: T)
    requires s != []
    ensures s[0] != x ==> Removed(s, x) == [s[0]] + Removed(s[1..], x)
    ensures s[0] == x ==> Removed(s, x) == s[1..]
    ensures x in s <==> x == s[0] || x in s[1..]
  {
    assert s == [s[0]] + s[1..];
  }

  lemma {:induction false} RemovedAt<T>(s: seq<T>, i: nat)
    requires i < |s| && s[i] !in s[..i]
    ensures Removed(s, s[i]) == s[..i] + s[i + 1..]
  {
    hide Removed;
    RemovedBehind(s, s[i]);
    if i == 0 {
      assert s[..0] + s[1..] == s[1..];
    } else {
      var t := s[1..];
      assert s[..i] == [s[0]] + t[..i - 1];
      assert s[0] in s[..i];
      assert t[i - 1] == s[i] && t[i..] == s[i + 1..];
      RemovedAt(t, i - 1);
      ConcatAssociative([s[0]], t[..i - 1], t[i..]);
    }
  }

  /** Nothing else goes. */
  lemma {:induction false} RemovedKeeps<T>(s: seq<T>, x: T, y: T)
    requires y != x
    ensures y in Removed(s, x) <==> y in s
  {
    if s == [] {
    } else {
      hide Removed;
      RemovedBehind(s, x);
      RemovedBehind(s, y);
      RemovedKeeps(s[1..], x, y);
    }
  }

  lemma {:induction false} RemovedConcat<T>(a: seq<T>, b: seq<T>, x: T)
    ensures Removed(a + b, x) == if x in a then Removed(a, x) + b else a + Removed(b, x)
  {
    if a == [] {
      assert a + b == b;
    } else {
      hide Removed;
      var h, t := [a[0]], a[1..];
      assert (a + b)[0] == a[0] && (a + b)[1..] == t + b;
      RemovedBehind(a + b, x);
      RemovedBehind(a, x);
      RemovedConcat(t, b, x);
      ConcatAssociative(h, Removed(t, x), b);
      ConcatAssociative(h, t, Removed(b, x));
      assert h + t == a;
    }
  }

  lemma {:induction false} IndexOf<T>(s: seq<T>, x: T) returns (i: nat)
    requires x in s
    ensures i < |s| && s[i] == x
    ensures NoDuplicates(s) ==> x !in s[..i]
  {
    i :| i < |s| && s[i] == x;
  }

  lemma {:induction false} RemovedNoDuplicates<T>(s: seq<T>, x: T)
    requires NoDuplicates(s)
    ensures NoDuplicates(Removed(s, x)) && forall y :: y in Removed(s, x) <==> y in s && y != x
  {
    if x in s {
      var i := IndexOf(s, x);
      RemovedAt(s, i);
      var r := s[..i] + s[i + 1..];
      hide Removed;
      forall y | y in s && y != x
        ensures y in r
      {
        var j := IndexOf(s, y);
        assert y == if j < i then r[j] else r[j - 1];
      }
    }
  }

  lemma {:induction false} ConcatNoDuplicates<T>(a: seq<T>, b: seq<T>)
    requires NoDuplicates(a) && NoDuplicates(b) && forall x :: x in a ==> x !in b
    ensures NoDuplicates(a + b)
  {
    forall i, j | 0 <= i < j < |a + b|
      ensures (a + b)[i] != (a + b)[j]
    {
      if i < |a| <= j {
        assert a[i] in a && b[j - |a|] in b;
      }
    }
  }
}
