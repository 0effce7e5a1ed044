/** `handle_delete`: deletes the messages an index specification selects, visiting them from
    the highest index down and counting the deletions the modem confirms. */
module Deletion {
  import opened PyText
  import opened Mmcli
  import opened IndexSpec

  /** `sorted(list(s), reverse=True)` for a set of indices below `bound`: the elements of `s`
      from `bound - 1` down to `0`. */
  function Descending(s: set<int>, bound: nat): seq<int> {
    if bound == 0 then []
    else if bound - 1 in s then [bound - 1] + Descending(s - {bound - 1}, bound - 1)
    else Descending(s, bound - 1)
  }

  /** `r` lists each element of `s` exactly once, greatest first. */
  ghost predicate ListsDescending(r: seq<int>, s: set<int>) {
    && |r| == |s|
    && (forall x :: x in r <==> x in s)
    && (forall i, j :: 0 <= i < j < |r| ==> r[i] > r[j])
  }

  /** The descending order of a set of indices lists each of them exactly once, greatest first. */
  lemma {:induction false} DescendingSorts(s: set<int>, bound: nat)
    requires forall x :: x in s ==> 0 <= x < bound
    ensures ListsDescending(Descending(s, bound), s)
  {
    if bound == 0 {
      NothingBelowZero(s);
    } else {
      var top := bound - 1;
      if top in s {
        var rest := s - {top};
        DescendingSorts(rest, top);
        PrependGreatest(Descending(rest, top), rest, top);
        assert rest + {top} == s;
      } else {
        DescendingSorts(s, top);
      }
    }
  }

  /** No index lies below zero. */
  lemma NothingBelowZero(s: set<int>)
    requires forall x :: x in s ==> 0 <= x < 0
    ensures s == {}
  {
    forall x | x in s
      ensures false
    {
    }
    assert s <= {};
  }

  /** Putting an element above all of a set in front of its descending order gives the
      descending order of the set with that element. */
  lemma PrependGreatest(tail: seq<int>, rest: set<int>, top: int)
    requires ListsDescending(tail, rest)
    requires forall x :: x in rest ==> x < top
    ensures ListsDescending([top] + tail, rest + {top})
  {
    var r := [top] + tail;
    forall i, j | 0 <= i < j < |r|
      ensures r[i] > r[j]
    {
      assert r[j] == tail[j - 1] && tail[j - 1] in rest;
      if i > 0 {
        assert r[i] == tail[i - 1];
      }
    }
  }

  /** How many of the outcomes are successes. */
  function CountTrue(bs: seq<bool>): (n: nat)
    ensures n <= |bs|
    ensures n == |bs| <==> forall i :: 0 <= i < |bs| ==> bs[i]
    ensures n == 0 <==> forall i :: 0 <= i < |bs| ==> !bs[i]
  {
    if bs == [] then 0
    else CountTrue(bs[..|bs| - 1]) + if bs[|bs| - 1] then 1 else 0
  }

  /** Successes are counted over any split of the outcomes: a failure adds nothing and stops
      nothing, and the successes after it are counted all the same. */
  lemma {:induction false} CountTrueConcat(a: seq<bool>, b: seq<bool>)
    ensures CountTrue(a + b) == CountTrue(a) + CountTrue(b)
    decreases |b|
  {
    if b != [] {
      var n := |b| - 1;
      assert (a + b)[..|a| + n] == a + b[..n];
      CountTrueConcat(a, b[..n]);
    } else {
      assert a + b == a;
    }
  }

  /** How a delete request ends: no messages on the modem, no index selected, or the indices
      visited with the outcome of each deletion and the number of successes. */
  datatype DeleteOutcome =
    | NoMessages
    | NoValidIndices
    | Deleted(visited: seq<int>, results: seq<bool>, count: nat)

  /** The indices an index specification selects on a modem holding `n` messages. */
  function Selection(indexStr: string, n: nat): set<int> {
    SpecIndices(Tokens(indexStr), n - 1)
  }

  /** The loop of `handle_delete`: visits the indices of `order` one after the other, whatever
      the earlier deletions gave, and counts the deletions that succeeded. */
  method DeleteInOrder(paths: seq<string>, order: seq<int>, deleteOk: (nat, string) -> bool)
    returns (visited: seq<int>, results: seq<bool>, deletedCount: nat)
    requires forall k :: 0 <= k < |order| ==> 0 <= order[k] < |paths|
    ensures visited == order
    ensures |results| == |order|
    ensures forall k :: 0 <= k < |order| ==> results[k] == deleteOk(k, paths[order[k]])
    ensures deletedCount == CountTrue(results)
  {
    visited := [];
    results := [];
    deletedCount := 0;
    for k := 0 to |order|
      invariant visited == order[..k]
      invariant |results| == k
      invariant forall j :: 0 <= j < k ==> results[j] == deleteOk(j, paths[order[j]])
      invariant deletedCount == CountTrue(results)
    {
      var index := order[k];
      var path := paths[index];
      var ok := deleteOk(k, path);
      assert (results + [ok])[..k] == results;
      results := results + [ok];
      if ok {
        deletedCount := deletedCount + 1;
      }
      visited := visited + [index];
    }
    assert order[..|order|] == order;
  }

  /** Deletes the messages selected by `indexStr` among those `listOutput` lists. The `k`-th
      deletion command, for the message at `path`, succeeds when `deleteOk(k, path)` holds. */
  method HandleDelete(listOutput: Option<string>, indexStr: string, deleteOk: (nat, string) -> bool)
    returns (outcome: DeleteOutcome)
    ensures outcome.NoMessages? <==> DevicePaths(listOutput) == []
    ensures outcome.NoValidIndices? <==>
              DevicePaths(listOutput) != [] && Selection(indexStr, |DevicePaths(listOutput)|) == {}
    ensures outcome.Deleted? ==>
              outcome.visited == Descending(Selection(indexStr, |DevicePaths(listOutput)|), |DevicePaths(listOutput)|)
    ensures outcome.Deleted? ==>
              |outcome.results| == |outcome.visited| &&
              forall k :: 0 <= k < |outcome.visited| ==>
                0 <= outcome.visited[k] < |DevicePaths(listOutput)| &&
                outcome.results[k] == deleteOk(k, DevicePaths(listOutput)[outcome.visited[k]])
    ensures outcome.Deleted? ==> outcome.count == CountTrue(outcome.results)
  {
    var paths := DevicePaths(listOutput);
    if paths == [] {
      return NoMessages;
    }
    var indices, warnings := ParseDeleteIndices(indexStr, |paths| - 1);
    if indices == {} {
      return NoValidIndices;
    }
    forall i | i in indices
      ensures 0 <= i < |paths|
    {
      SelectedInBounds(Tokens(indexStr), |paths| - 1, i);
    }
    var order := Descending(indices, |paths|);
    DescendingSorts(indices, |paths|);
    forall k | 0 <= k < |order|
      ensures 0 <= order[k] < |paths|
    {
      assert order[k] in order;
    }
    ghost var selection := Selection(indexStr, |paths|);
    assert order == Descending(selection, |paths|) by {
      assert indices == selection;
    }
    var visited, results, deletedCount := DeleteInOrder(paths, order, deleteOk);
    return Deleted(visited, results, deletedCount);
  }
}
