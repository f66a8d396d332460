/** A writer that fails: where, and what a reader makes of the bytes that were put out before. */
module ZipFailure {
  import opened Wrappers
  import opened Bytes
  import opened ZipFormat
  import opened ZipWriterSpec
  import ZipWriter
  import R = ZipReaderSpec
  import opened ZipRoundTrip

  /** More members make a longer directory. */
  lemma {:induction false} DirectoryGrows(ps: seq<Placed>, k: nat)
    requires AllFit(ps) && k < |ps|
    ensures AllFit(ps[..k]) && AllFit(ps[..k + 1]) && |Directory(ps[..k])| < |Directory(ps[..k + 1])|
  {
    hide CheckMember, CentralEntry;
    DirectorySnoc(ps[..k], ps[k]);
    assert ps[..k + 1] == ps[..k] + [ps[k]];
    assert CheckMember(ps[k]) == None;
  }

  lemma {:induction false} DirectoryIncreases(ps: seq<Placed>, k: nat, l: nat)
    requires AllFit(ps) && k <= |ps| && l <= |ps|
    ensures AllFit(ps[..k]) && AllFit(ps[..l])
    ensures k <= l ==> |Directory(ps[..k])| <= |Directory(ps[..l])|
    decreases l - k
  {
    hide CheckMember, Directory;
    if k < l {
      DirectoryGrows(ps, k);
      DirectoryIncreases(ps, k + 1, l);
    }
  }

  /** The first member that does not fit. */
  lemma {:induction false} FirstMisfit(ps: seq<Placed>) returns (n: nat)
    requires !AllFit(ps)
    ensures n < |ps| && AllFit(ps[..n]) && CheckMember(ps[n]).Some?
  {
    hide CheckMember;
    n := 0;
    assert ps[..|ps|] == ps;
    while CheckMember(ps[n]).None?
      invariant n < |ps| && AllFit(ps[..n])
      decreases |ps| - n
    {
      assert AllFit(ps[..n + 1]);
      n := n + 1;
    }
  }

  lemma {:induction false} FirstsFit(ps: seq<Placed>, k: nat)
    requires AllFit(ps) && k <= |ps|
    ensures AllFit(ps[..k])
  {
    hide CheckMember;
  }

  /** A record with which the directory becomes too large, when it does so within the first `l`. */
  lemma {:induction false} FirstBeyond(ps: seq<Placed>, zip64: bool, start: nat, l: nat) returns (k: nat)
    requires AllFit(ps) && l <= |ps| && Within(zip64, start, 0)
    requires AllFit(ps[..l]) && !Within(zip64, start, |Directory(ps[..l])|)
    ensures 0 < k <= l
    ensures AllFit(ps[..k - 1]) && Within(zip64, start, |Directory(ps[..k - 1])|)
    ensures AllFit(ps[..k]) && !Within(zip64, start, |Directory(ps[..k])|)
    decreases l
  {
    hide AllFit, CentralEntry;
    assert 0 < l;
    FirstsFit(ps, l - 1);
    if Within(zip64, start, |Directory(ps[..l - 1])|) {
      k := l;
    } else {
      k := FirstBeyond(ps, zip64, start, l - 1);
    }
  }

  /** The writer fails exactly on the lists for which it stops somewhere. */
  lemma {:induction false} FailsWhereItStops(ms: seq<Member>)
    ensures Archive(ms).Err? <==> exists n, k :: Stops(ms, n, k)
  {
    hide CheckMember, Body, Directory, Place, UsesZip64, EndRecords;
    var ps, zip64 := Place(ms, 0), UsesZip64(ms);
    assert ps[..|ps|] == ps;
    if !AllFit(ps) {
      var n := FirstMisfit(ps);
      assert Stops(ms, n, 0);
    } else if Crowded(zip64, |ms|, |Body(ps)|) {
      assert Stops(ms, |ms|, 0);
    } else if !Within(zip64, |Body(ps)|, |Directory(ps)|) {
      var k := FirstBeyond(ps, zip64, |Body(ps)|, |ps|);
      assert Stops(ms, |ms|, k);
    } else {
      forall n, k | Stops(ms, n, k)
        ensures false
      {
        DirectoryIncreases(ps, k, |ps|);
      }
    }
  }

  lemma {:induction false} StopsNoLater(ms: seq<Member>, n: nat, k: nat, n': nat, k': nat)
    requires Stops(ms, n, k) && Stops(ms, n', k')
    ensures n' <= n && (n' == n ==> k' <= k)
  {
    hide CheckMember, Body, Directory, Place, UsesZip64;
    var ps := Place(ms, 0);
    assert forall i :: 0 <= i < n' ==> ps[..n'][i] == ps[i];
    if n' == n == |ps| && k' > 0 {
      assert ps[..n] == ps;
      DirectoryIncreases(ps, k, k' - 1);
    }
  }

  /** There is one such place only. */
  lemma {:induction false} StopsOnce(ms: seq<Member>, n: nat, k: nat, n': nat, k': nat)
    requires Stops(ms, n, k) && Stops(ms, n', k')
    ensures n == n' && k == k'
  {
    hide Stops;
    StopsNoLater(ms, n, k, n', k');
    StopsNoLater(ms, n', k', n, k);
  }

  /** The first members are placed as they are in the whole list. */
  lemma {:induction false} PlacedFirsts(ms: seq<Member>, n: nat)
    requires n <= |ms| && AllFit(Place(ms, 0)[..n])
    ensures Place(ms[..n], 0) == Place(ms, 0)[..n]
    ensures forall i :: 0 <= i < n ==> Place(ms, 0)[..n][i].member == ms[..n][i] && Writable(ms[..n][i])
    ensures EndOf(ms[..n], 0) == |Body(Place(ms, 0)[..n])|
  {
    hide Place, Body;
    assert ms == ms[..n] + ms[n..];
    PlaceConcat(ms[..n], ms[n..], 0);
    assert Place(ms, 0)[..n] == Place(ms[..n], 0);
    Members(ms[..n], 0);
    BodyLength(ms[..n], 0);
    assert forall i :: 0 <= i < n ==> CheckMember(Place(ms, 0)[..n][i]) == None;
  }

  lemma {:induction false} StoppedFits(ms: seq<Member>, n: nat, k: nat)
    requires Stops(ms, n, k)
    ensures n <= |ms| && AllFit(Place(ms, 0)[..n])
  {
  }

  lemma {:induction false} PutDirectory(ms: seq<Member>, n: nat, k: nat) returns (directory: Bytes)
    requires Stops(ms, n, k)
    ensures PutOut(ms, n, k) == Body(Place(ms, 0)[..n]) + directory
    ensures if k == 0 then directory == [] else 4 <= |directory| && directory[..4] == CENTRAL_SIGNATURE
    ensures k > 0 ==> !Within(UsesZip64(ms), |Body(Place(ms, 0)[..n])|, |directory|)
  {
    hide Place, Body, CheckMember, CentralEntry, UsesZip64;
    var ps := Place(ms, 0);
    assert AllFit(ps[..k]) by {
      assert forall i :: 0 <= i < k ==> ps[..k][i] == ps[..n][i];
    }
    directory := Directory(ps[..k]);
    if k == 0 {
      assert ps[..0] == [];
    } else {
      DirectoryStart(ps[..k]);
    }
  }

  /** A failure in the directory comes behind its first signature; in that of a 32-bit archive, far behind. */
  lemma {:induction false} DirectoryPutOut(ms: seq<Member>, k: nat)
    requires Stops(ms, |ms|, k) && k > 0
    ensures |PutOut(ms, |ms|, k)| >= EndOf(ms, 0) + 4
    ensures !UsesZip64(ms) ==> |PutOut(ms, |ms|, k)| > EndOf(ms, 0) + MAX32
  {
    hide Stops, PutOut, Place, Body, EndOf, UsesZip64;
    var directory := PutDirectory(ms, |ms|, k);
    StoppedFits(ms, |ms|, k);
    PlacedFirsts(ms, |ms|);
    assert ms[..|ms|] == ms;
  }

  /** Any beginning of what a failed writer has put out. If the failure came before the directory, the reader notices
      it; if it came in the directory, the reader takes a beginning that reaches into it for a whole archive. */
  lemma {:induction false} AbandonedRead(ms: seq<Member>, n: nat, k: nat, j: nat, surplus: bool)
    requires Stops(ms, n, k) && j <= |PutOut(ms, n, k)|
    ensures forall i :: 0 <= i < n ==> Writable(ms[..n][i])
    ensures R.Extract(PutOut(ms, n, k)[..j], surplus)
         == if j < EndOf(ms[..n], 0) + 4 then Cut(ms[..n], j) else Expected(ms[..n])
    ensures k == 0 ==> j <= EndOf(ms[..n], 0)
  {
    hide Place, Body, Directory, CheckMember, R.Extract, Cut, Expected, EndOf, Crowded, Within, UsesZip64;
    var ps := Place(ms, 0)[..n];
    var directory := PutDirectory(ms, n, k);
    PlacedFirsts(ms, n);
    var out := PutOut(ms, n, k);
    assert out == Body(ps) + directory;
    if j < |Body(ps)| + 4 {
      assert out[..j] == (Body(ps) + CENTRAL_SIGNATURE)[..j];
      BodyCut(ps, ms[..n], j, surplus);
    } else {
      var tail := directory[4..j - |Body(ps)|];
      assert out[..j] == Body(ps) + (CENTRAL_SIGNATURE + tail);
      BodyRead(ps, ms[..n], tail, surplus);
    }
  }

  /** The reader takes the blocks left behind by a failed writer for a whole archive if and only if the writer failed in
      the directory, they reach into it and every member is readable; then all members come back. */
  lemma {:induction false} FailureNoticed(ms: seq<Member>, n: nat, k: nat, blocks: seq<Bytes>, size: nat, surplus: bool)
    requires Stops(ms, n, k) && ZipWriter.FullBlocks(blocks, PutOut(ms, n, k), size)
    ensures forall i :: 0 <= i < n ==> Writable(ms[..n][i])
    ensures R.Extract(Concat(blocks), surplus).outcome == R.Finished
       <==> k > 0 && |Concat(blocks)| >= EndOf(ms, 0) + 4 && forall i :: 0 <= i < |ms| ==> Readable(ms[i])
    ensures R.Extract(Concat(blocks), surplus).outcome == R.Finished
        ==> R.Extract(Concat(blocks), surplus).files == FilesOf(ms[..n]) && ms[..n] == ms
    ensures R.Extract(Concat(blocks), surplus)
         == if |Concat(blocks)| < EndOf(ms[..n], 0) + 4 then Cut(ms[..n], |Concat(blocks)|) else Expected(ms[..n])
  {
    hide PutOut, R.Extract, Cut, EndOf, Place, Body, Directory, CheckMember, Crowded, Within, UsesZip64, FilesOf;
    hide Concat;
    var j := |Concat(blocks)|;
    assert PutOut(ms, n, k)[..j] == Concat(blocks);
    AbandonedRead(ms, n, k, j, surplus);
    assert k > 0 ==> ms[..n] == ms;
  }
}
