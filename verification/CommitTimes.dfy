/** Commit times: nearly sorted, and searched by a "loose" binary search. */
module CommitTimes {

  const SLACK := 394

  // What readRepositoryCommits checks: a commit may be older than its parent
  // by at most SLACK seconds, and is newer than its grandparent.
  ghost predicate NearlySorted(t: seq<int>) {
    && (forall i :: 0 <= i < |t| - 1 ==> t[i] <= t[i + 1] + SLACK)
    && (forall i :: 0 <= i < |t| - 2 ==> t[i] < t[i + 2])
  }

  lemma {:induction false} EvenStepsGrow(t: seq<int>, i: nat, k: nat)
    requires NearlySorted(t) && i + 2 * k < |t|
    ensures t[i] <= t[i + 2 * k]
  {
    if k > 0 {
      EvenStepsGrow(t, i, k - 1);
      assert t[i + 2 * (k - 1)] < t[i + 2 * (k - 1) + 2];
    }
  }

  // However far apart, a later commit is at most SLACK seconds older.
  lemma AlmostMonotone(t: seq<int>, i: nat, j: nat)
    requires NearlySorted(t) && i <= j < |t|
    ensures t[i] <= t[j] + SLACK
  {
    var k := (j - i) / 2;
    EvenStepsGrow(t, i, k);
    if (j - i) % 2 == 1 {
      assert j == i + 2 * k + 1;
    } else {
      assert j == i + 2 * k;
    }
  }

  // The answer of lastCommitByTime: the commit `j` is not after `time`, and
  // only commits within SLACK of `time` can be on the wrong side of it. There
  // is no such commit just when the first one is after `time`.
  ghost predicate LastBefore(t: seq<int>, time: int, j: int) {
    && -1 <= j < |t|
    && (j == -1 <==> |t| == 0 || time < t[0])
    && (j >= 0 ==> t[j] <= time)
    && (forall k :: j < k < |t| && t[k] <= time ==> time - SLACK < t[k])
    && (forall k :: 0 <= k < j ==> t[k] <= time + SLACK)
  }

  ghost predicate NonDecreasing(t: seq<int>) {
    forall i, k :: 0 <= i < k < |t| ==> t[i] <= t[k]
  }

  // `j` is the last commit that is not after `time`.
  ghost predicate LastExactly(t: seq<int>, time: int, j: int) {
    -1 <= j < |t| && forall k :: 0 <= k < |t| ==> (t[k] <= time <==> k <= j)
  }

  // Before the first commit.
  lemma NoneBefore(t: seq<int>, time: int)
    requires NearlySorted(t) && (|t| == 0 || time < t[0])
    ensures LastBefore(t, time, -1)
    ensures NonDecreasing(t) ==> LastExactly(t, time, -1)
  {
    forall k | 0 <= k < |t| && t[k] <= time
      ensures time - SLACK < t[k]
    {
      AlmostMonotone(t, 0, k);
    }
  }

  // The bounds that the loose binary search ends with settle the answer.
  lemma LooseBounds(t: seq<int>, time: int, l: nat, j: nat, r: nat)
    requires NearlySorted(t) && l <= j <= r < |t|
    requires t[0] <= time && t[l] <= time && t[j] <= time
    requires r == |t| - 1 || time < t[r]
    requires forall k :: j < k <= r ==> time < t[k]
    ensures LastBefore(t, time, j)
    ensures NonDecreasing(t) ==> LastExactly(t, time, j)
  {
    forall k | j < k < |t| && t[k] <= time
      ensures time - SLACK < t[k]
    {
      assert k > r;
      AlmostMonotone(t, r, k);
    }
    forall k | 0 <= k < j
      ensures t[k] <= time + SLACK
    {
      AlmostMonotone(t, k, j);
    }
  }
}
