/** Which sampled loops are corrected in a call and by how much, loop by loop, with pipelined loops among them. */
module UpsampleGroups {
  import A = Arithmetic
  import opened LoopTree
  import opened LoopInfos
  import opened Upsample

  // ----- groups

  /** Iterations of one loop with one parent make up one group. */
  lemma GroupMembers(t: SampledTree, ms: seq<Measured>, i: nat, k: nat)
    requires |ms| == |t.loops| && 0 < i < |ms| && k in GroupOf(t, ms, i)
    ensures 0 < k < |ms| && t.links.parent[k] == t.links.parent[i] && ms[k].name == ms[i].name
    ensures GroupOf(t, ms, k) == GroupOf(t, ms, i)
  {
    var kids := t.links.children[t.links.parent[i]];
    KidsInRange(t, t.links.parent[i]);
    var j: nat :| j < |kids| && kids[j] == k;
    ChildOf(t, t.links.parent[i], j);
  }

  /** Loop `k` is marked by the turn of loop `i`: a sampled iteration, not upsampled before, of its own loop. */
  ghost predicate MarkedBy(t: SampledTree, ms: seq<Measured>, up: seq<bool>, i: nat, k: nat)
    requires |ms| == |t.loops| == |up|
  {
    0 < i < |ms| && ms[i].sampled && ms[i].pipelined && !up[i] && k in GroupOf(t, ms, i)
  }

  ghost predicate MarkedBelow(t: SampledTree, ms: seq<Measured>, up: seq<bool>, n: nat, k: nat)
    requires |ms| == |t.loops| == |up|
  {
    exists i: nat :: i < n && MarkedBy(t, ms, up, i, k)
  }

  lemma MarkedNext(t: SampledTree, ms: seq<Measured>, up: seq<bool>, n: nat, k: nat)
    requires |ms| == |t.loops| == |up|
    ensures MarkedBelow(t, ms, up, n + 1, k) <==> MarkedBelow(t, ms, up, n, k) || MarkedBy(t, ms, up, n, k)
  {
    if MarkedBelow(t, ms, up, n + 1, k) && !MarkedBy(t, ms, up, n, k) {
      var i: nat :| i < n + 1 && MarkedBy(t, ms, up, i, k);
      assert i < n;
    }
  }

  /** What marked an iteration marked its whole group. */
  lemma MarksGroup(t: SampledTree, ms: seq<Measured>, up: seq<bool>, n: nat, i: nat, k: nat)
    requires |ms| == |t.loops| == |up| && 0 < i < |ms| && MarkedBelow(t, ms, up, n, i) && k in GroupOf(t, ms, i)
    ensures MarkedBelow(t, ms, up, n, k)
  {
    var h: nat :| h < n && MarkedBy(t, ms, up, h, i);
    GroupMembers(t, ms, h, i);
    assert MarkedBy(t, ms, up, h, k);
  }

  /** Before its turn, a loop is done with if it was before or an earlier iteration of its loop had its turn. */
  lemma {:induction false} DoneIff(t: SampledTree, ms: seq<Measured>, elapsed: seq<int>, up: seq<bool>, n: nat, k: nat)
    requires Describes(t, ms, elapsed) && |up| == |ms| && n <= k < |ms|
    ensures AllCorrected(t, ms, elapsed, up, n).upsampled[k] <==> up[k] || MarkedBelow(t, ms, up, n, k)
    decreases n
  {
    if n > 0 {
      var i := n - 1;
      DoneIff(t, ms, elapsed, up, i, k);
      DoneIff(t, ms, elapsed, up, i, i);
      MarkedNext(t, ms, up, i, k);
      if MarkedBy(t, ms, up, i, k) && MarkedBelow(t, ms, up, i, i) { MarksGroup(t, ms, up, i, i, k); }
    }
  }

  /** Its turn is the only one that corrects it. */
  lemma {:induction false} CorrectedAtItsTurn(t: SampledTree, ms: seq<Measured>, elapsed: seq<int>, up: seq<bool>,
                                              n: nat, k: nat)
    requires Describes(t, ms, elapsed) && |up| == |ms| && 0 < k < n <= |ms|
    ensures AllCorrected(t, ms, elapsed, up, n).correction[k] == AllCorrected(t, ms, elapsed, up, k + 1).correction[k]
    decreases n
  {
    if n > k + 1 { CorrectedAtItsTurn(t, ms, elapsed, up, n - 1, k); }
  }

  /** In a call, loop `k` is corrected exactly when it is sampled, was not upsampled before, and no earlier sampled
      iteration of the same pipelined loop speaks for it; by its own cycles, or by its group's if it is pipelined. */
  lemma CorrectedIff(t: SampledTree, ms: seq<Measured>, elapsed: seq<int>, up: seq<bool>, k: nat)
    requires Describes(t, ms, elapsed) && |up| == |ms| && 0 < k < |ms|
    ensures AllCorrected(t, ms, elapsed, up, |ms|).correction[k] ==
      if !ms[k].sampled || up[k] || MarkedBelow(t, ms, up, k, k) then 0
      else if ms[k].pipelined then PipelinedCorrection(ms, GroupOf(t, ms, k), t.factor[k])
      else PlainCorrection(elapsed[k], t.factor[k])
  {
    CorrectedAtItsTurn(t, ms, elapsed, up, |ms|, k);
    DoneIff(t, ms, elapsed, up, k, k);
    assert AllCorrected(t, ms, elapsed, up, k).correction[k] == 0;
  }

  // ----- the correction of a group

  lemma ProductFits(a: nat, n: nat)
    requires a < 0x8000_0000 && n < 0x1_0000_0000
    ensures 0 <= a * n < 0x8000_0000_0000_0000
  {
    A.NonNegative(a, n);
    A.NonNegative(0x7fff_ffff - a, n);
    assert (0x7fff_ffff - a) * n == 0x7fff_ffff * n - a * n;
  }

  /** With a whole factor f, a pipelined loop of n iterations whose ends do not go down: the average distance of their
      ends, rounded down, n times, and that (f - 1) times. */
  lemma PipelinedIsAverage(ms: seq<Measured>, group: seq<nat>, factor: int, total: int, n: nat)
    requires n == |group| && 1 < n < 0x1_0000_0000 && forall i :: 0 <= i < |group| ==> group[i] < |ms|
    requires total == ms[group[n - 1]].end - ms[group[0]].end && 0 <= total < 0x8000_0000
    ensures PipelinedCorrection(ms, group, factor as real) == (factor - 1) * (total / (n - 1) * n)
  {
    IntervalsTelescope(ms, group);
    AverageIsExact(total, n);
    WholeTimes(total / (n - 1), n, factor);
  }

  lemma WholeTimes(average: nat, n: nat, factor: int)
    requires average < 0x8000_0000 && n < 0x1_0000_0000
    ensures Times(ToSize(average * n), factor as real - 1.0) == (factor - 1) * (average * n)
  {
    var x := average * n;
    ProductFits(average, n);
    assert ToSize(x) == x;
    TimesWhole(x, factor as real - 1.0, factor - 1);
  }

  /** Products are cut toward zero: the cycles of a factor below 1 come out no larger than they are. */
  lemma CutTowardZero(cycles: int, factor: real)
    ensures var x, n := cycles as real * factor, Times(cycles, factor);
      if x >= 0.0 then 0 <= n && n as real <= x < n as real + 1.0 else n <= 0 && n as real - 1.0 < x <= n as real
  {
    var x := cycles as real * factor;
    if x < 0.0 { assert (-x).Floor as real <= -x < (-x).Floor as real + 1.0; }
  }

  /** A loop of which one iteration was traced gets no correction. */
  lemma OneIterationAddsNothing(ms: seq<Measured>, group: seq<nat>, factor: real)
    requires |group| == 1 && group[0] < |ms|
    ensures PipelinedCorrection(ms, group, factor) == 0
  {
    assert Average(Intervals(ms, group), 1) == 0;
    assert 0 as real * (factor - 1.0) == 0.0;
  }
}
