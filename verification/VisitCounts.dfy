/** Visit counts of the children of a search node, and the early-stop rule of
    previous works/IsabelleGym1.0/IsabelleGym/sliding_puzzle/mcts.py that reads them. */
module VisitCounts {
  function Sum(cs: seq<nat>): nat {
    if cs == [] then 0 else cs[0] + Sum(cs[1..])
  }

  lemma {:induction false} SumOfUpdate(cs: seq<nat>, k: nat)
    requires k < |cs|
    ensures Sum(cs[k := cs[k] + 1]) == Sum(cs) + 1
  {
    if k == 0 {
      assert cs[0 := cs[0] + 1][1..] == cs[1..];
    } else {
      SumOfUpdate(cs[1..], k - 1);
      assert cs[k := cs[k] + 1][1..] == cs[1..][k - 1 := cs[1..][k - 1] + 1];
    }
  }

  /** What one simulation does to the visit counts of a fixed list of children. */
  ghost predicate CountStep(cs: seq<nat>, ds: seq<nat>) {
    ds == cs || exists k: nat :: k < |cs| && ds == cs[k := cs[k] + 1]
  }

  // ----- the early-stop test -------------------------------------------------------------------

  function InsertDescending(x: nat, s: seq<nat>): (r: seq<nat>)
    ensures |r| == |s| + 1
  {
    if s == [] || x >= s[0] then [x] + s else [s[0]] + InsertDescending(x, s[1..])
  }

  /** `sorted(counts, reverse=True)` */
  function SortDescending(cs: seq<nat>): (r: seq<nat>)
    ensures |r| == |cs|
  {
    if cs == [] then [] else InsertDescending(cs[0], SortDescending(cs[1..]))
  }

  /** The lead of the most visited child over the next one. */
  function Lead(cs: seq<nat>): int
    requires cs != []
  {
    var s := SortDescending(cs);
    s[0] as int - (if |s| > 1 then s[1] as int else 0)
  }

  /** The first index of the largest count: `max(items, key=...)`. */
  function Best(cs: seq<nat>): (k: nat)
    requires cs != []
    ensures k < |cs|
    ensures forall j | 0 <= j < |cs| :: cs[j] <= cs[k]
    ensures forall j | 0 <= j < k :: cs[j] < cs[k]
  {
    if |cs| == 1 then 0
    else
      var k := Best(cs[1..]);
      if cs[0] >= cs[k + 1] then 0 else k + 1
  }

  /** The two largest counts are those of the child at `k` and of its closest rival. */
  lemma {:induction false} TopTwo(cs: seq<nat>) returns (k: nat)
    requires cs != []
    ensures k < |cs| && SortDescending(cs)[0] == cs[k]
    ensures forall j | 0 <= j < |cs| && j != k :: |cs| > 1 && cs[j] <= SortDescending(cs)[1] <= cs[k]
  {
    if |cs| == 1 {
      k := 0;
    } else {
      var k' := TopTwo(cs[1..]);
      var s := SortDescending(cs[1..]);
      assert forall j | 0 < j < |cs| :: cs[j] == cs[1..][j - 1];
      if cs[0] >= s[0] {
        k := 0;
      } else {
        k := k' + 1;
        assert SortDescending(cs)[1..] == InsertDescending(cs[0], s[1..]);
      }
    }
  }

  ghost predicate CountRun(trace: seq<seq<nat>>) {
    trace != [] && forall i | 0 <= i < |trace| - 1 :: CountStep(trace[i], trace[i + 1])
  }

  lemma {:induction false} RunBounds(trace: seq<seq<nat>>)
    requires CountRun(trace)
    ensures var cs, ds := trace[0], trace[|trace| - 1];
      |ds| == |cs| && forall j | 0 <= j < |cs| :: cs[j] <= ds[j] < cs[j] + |trace|
  {
    if |trace| > 1 {
      var t := trace[..|trace| - 1];
      assert forall i | 0 <= i < |t| - 1 :: CountStep(trace[i], trace[i + 1]) ==> CountStep(t[i], t[i + 1]);
      RunBounds(t);
      assert CountStep(trace[|t| - 1], trace[|t| - 1 + 1]);
    }
  }

  /** Once the lead exceeds the number of simulations left, none of the ways they can go changes the answer. */
  lemma EarlyStopIsSound(trace: seq<seq<nat>>, remaining: nat)
    requires CountRun(trace) && |trace| <= remaining + 1
    requires trace[0] != [] && Lead(trace[0]) > remaining
    ensures trace[|trace| - 1] != [] && Best(trace[|trace| - 1]) == Best(trace[0])
  {
    var cs, ds := trace[0], trace[|trace| - 1];
    RunBounds(trace);
    var k := TopTwo(cs);
    assert Best(cs) == k;
    assert Best(ds) == k;
  }

  /** With a lead that only equals the number of simulations left the answer can still change: a tie goes to
      the earlier child. */
  lemma LeadEqualToRemainingIsNotEnough() returns (trace: seq<seq<nat>>, remaining: nat)
    ensures CountRun(trace) && |trace| <= remaining + 1
    ensures trace[0] != [] && Lead(trace[0]) == remaining
    ensures trace[|trace| - 1] != [] && Best(trace[|trace| - 1]) != Best(trace[0])
  {
    var a: seq<nat>, b: seq<nat> := [0, 1], [1, 1];
    trace, remaining := [a, b], 1;
    assert b == a[0 := a[0] + 1];
    assert CountStep(trace[0], trace[0 + 1]);
    assert a[1..] == [1] && b[1..] == [1] && a[1..][1..] == [];
    assert SortDescending(a[1..]) == [1] && SortDescending(a) == [1, 0];
    assert Best(a[1..]) == 0 && Best(b[1..]) == 0;
  }
}
