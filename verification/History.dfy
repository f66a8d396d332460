/** The bounded history of submitted pipelines, oldest first. */
module History {
  import opened Vsm

  /** One version for each component, in pipeline order. */
  type Pipeline = seq<Version>

  predicate AllFit(ps: seq<Pipeline>)
  {
    forall i :: 0 <= i < |ps| ==> |ps[i]| == NUM_PIPELINE_LENGTH
  }

  function Appended(capacity: nat, entries: seq<Pipeline>, p: Pipeline): seq<Pipeline>
  {
    if |entries| + 2 > capacity then (entries + [p])[1..] else entries + [p]
  }

  function AppendedAll(capacity: nat, ps: seq<Pipeline>): seq<Pipeline>
  {
    if ps == [] then [] else Appended(capacity, AppendedAll(capacity, ps[..|ps| - 1]), ps[|ps| - 1])
  }

  /** The last `n` pipelines. */
  function Latest(n: nat, ps: seq<Pipeline>): seq<Pipeline>
  {
    if |ps| <= n then ps else ps[|ps| - n..]
  }

  lemma {:induction false} LatestWithOneMore(n: nat, ps: seq<Pipeline>, p: Pipeline)
    ensures Latest(n, ps + [p])
         == if |ps| < n then Latest(n, ps) + [p] else (Latest(n, ps) + [p])[1..]
  {
    if |ps| >= n {
      var before := ps[..|ps| - n];
      assert ps == before + Latest(n, ps);
      assert ps + [p] == before + (Latest(n, ps) + [p]);
      assert (before + (Latest(n, ps) + [p]))[|before| + 1..] == (Latest(n, ps) + [p])[1..];
    }
  }

  /**
   * The leading column of minus ones counts towards the capacity, so one pipeline less is kept: always the latest
   * ones, in the order of submission.
   */
  lemma {:induction false} KeepsTheLatest(capacity: nat, ps: seq<Pipeline>)
    ensures AppendedAll(capacity, ps) == Latest(if capacity == 0 then 0 else capacity - 1, ps)
  {
    if ps == [] {
    } else {
      var before, p := ps[..|ps| - 1], ps[|ps| - 1];
      assert ps == before + [p];
      KeepsTheLatest(capacity, before);
      LatestWithOneMore(if capacity == 0 then 0 else capacity - 1, before, p);
    }
  }

  /** So entry by entry. */
  lemma {:induction false} EntriesAre(capacity: nat, ps: seq<Pipeline>)
    ensures var es, kept := AppendedAll(capacity, ps), if capacity == 0 then 0 else capacity - 1;
      && |es| == (if |ps| < kept then |ps| else kept)
      && forall i :: 0 <= i < |es| ==> es[i] == ps[|ps| - |es| + i]
  {
    hide AppendedAll;
    KeepsTheLatest(capacity, ps);
  }

  class History {
    const capacity: nat
    const sentinel: Pipeline
    var data: seq<Pipeline>

    ghost predicate Valid()
      reads this
    {
      data != [] && data[0] == sentinel && AllFit(data)
    }

    function Entries(): (ps: seq<Pipeline>)
      requires data != []
      reads this
      ensures AllFit(data) ==> AllFit(ps)
    {
      data[1..]
    }

    constructor (capacity: nat)
      ensures Valid() && this.capacity == capacity && Entries() == []
    {
      this.capacity := capacity;
      sentinel := seq(NUM_PIPELINE_LENGTH, _ => Version(-1, -1));
      data := [seq(NUM_PIPELINE_LENGTH, _ => Version(-1, -1))];
    }

    method Append(p: Pipeline)
      requires Valid() && |p| == NUM_PIPELINE_LENGTH
      modifies this
      ensures Valid() && Entries() == Appended(capacity, old(Entries()), p)
    {
      var history := data + [p];
      if |history| > capacity {
        history := history[..1] + history[2..];
      }
      data := history;
    }
  }
}
