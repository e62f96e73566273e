/** The block-partition solver: split an ordered sequence of non-negative
    weights into a given number of non-empty contiguous blocks so that the
    largest block sum is as small as possible.

    The solver searches for the smallest block-sum limit at which a greedy
    pass needs no more than `partitions` blocks, then builds the blocks from
    the right end at that limit, cutting early whenever the elements left are
    exactly as many as the blocks still to be filled. */
module BlockPartition {
  import opened SeqSums

  /** The solver either succeeds or rejects its arguments. */
  datatype Result<T> = Ok(value: T) | InvalidArgument

  /** `blocks` is a split of `w` into exactly `k` non-empty contiguous blocks. */
  predicate IsPartition(blocks: seq<seq<nat>>, w: seq<nat>, k: int)
  {
    && |blocks| == k
    && (forall i :: 0 <= i < |blocks| ==> |blocks[i]| > 0)
    && Flatten(blocks) == w
  }

  /** The suffix of `w` from index `i` weighs more than `limit`. */
  predicate Overfull(w: seq<nat>, i: nat, limit: nat)
  {
    i <= |w| && Sum(w[i..]) > limit
  }

  /** The right-to-left accumulation of one block: `acc` is the weight of the
      block w[start..] gathered so far; the block grows leftwards while the
      next weight still fits under `limit` and `start` stays above `floor`. */
  function Scan(w: seq<nat>, limit: nat, floor: nat, start: nat, acc: nat): (r: nat)
    requires floor <= start < |w|
    requires acc == Sum(w[start..])
    ensures floor <= r <= start
    ensures Sum(w[r..]) <= limit || r == start
    ensures forall i :: floor <= i < r ==> Overfull(w, i, limit)
    decreases start
  {
    if start > floor && acc + w[start - 1] <= limit then
      SuffixSumStep(w, start - 1);
      Scan(w, limit, floor, start - 1, acc + w[start - 1])
    else
      StoppedScan(w, limit, floor, start, acc);
      start
  }

  /** When the scan stops, every earlier start gives a suffix over `limit`. */
  lemma StoppedScan(w: seq<nat>, limit: nat, floor: nat, start: nat, acc: nat)
    requires floor <= start < |w|
    requires acc == Sum(w[start..])
    requires !(start > floor && acc + w[start - 1] <= limit)
    ensures forall i :: floor <= i < start ==> Overfull(w, i, limit)
  {
    if start > floor {
      SuffixSumStep(w, start - 1);
      forall i | floor <= i < start - 1 ensures Overfull(w, i, limit) {
        SuffixSumMonotone(w, i, start - 1);
      }
    }
  }

  /** Start index of the last block of `w` at `limit`: the block always holds
      the last weight, and extends leftwards while it fits, but never below
      index `floor` (the elements before `floor` are reserved for the other
      blocks). The start is pinned down only when the last weight fits under
      `limit`; the solver calls it only at limits every weight fits under. */
  function BlockStart(w: seq<nat>, limit: nat, floor: nat): (start: nat)
    requires floor < |w|
    ensures floor <= start < |w|
    ensures w[|w| - 1] <= limit ==> Sum(w[start..]) <= limit
    ensures forall i :: floor <= i < start ==> Overfull(w, i, limit)
  {
    assert w[|w| - 1..] == [w[|w| - 1]];
    Scan(w, limit, floor, |w| - 1, w[|w| - 1])
  }

  /** With every weight within `limit`, the floor only ever moves the start
      up to the floor itself: the block is the unconstrained greedy one, or it
      is cut at the floor. */
  lemma BlockStartFloor(w: seq<nat>, limit: nat, floor: nat)
    requires floor < |w|
    requires AllAtMost(w, limit)
    ensures BlockStart(w, limit, floor)
         == if BlockStart(w, limit, 0) >= floor then BlockStart(w, limit, 0) else floor
  {
    var s0 := BlockStart(w, limit, 0);
    var s := BlockStart(w, limit, floor);
    assert !Overfull(w, s0, limit) && !Overfull(w, s, limit);
    if s0 < floor {
      SuffixSumMonotone(w, s0, floor);
      assert !Overfull(w, floor, limit);
    }
  }

  /** Number of blocks a greedy right-to-left pass uses at `limit`. A weight
      over `limit` gets a block of its own, so the count means something only
      at limits every weight fits under; `Feasible` asks for that. */
  function GreedyCount(w: seq<nat>, limit: nat): (n: nat)
    ensures n <= |w|
    ensures n == 0 <==> w == []
    decreases |w|
  {
    if w == [] then 0 else 1 + GreedyCount(w[..BlockStart(w, limit, 0)], limit)
  }

  /** `limit` is feasible for `k` blocks when every weight fits under it and
      the greedy pass needs at most `k` blocks; `FeasibleIffSplitExists` shows
      this is exactly when some split into `k` blocks stays within `limit`. */
  predicate Feasible(w: seq<nat>, k: nat, limit: nat)
  {
    AllAtMost(w, limit) && GreedyCount(w, limit) <= k
  }

  /** The greedy count is the fewest blocks any grouping within `limit` can
      use: for every grouping `q` whose blocks all sum to at most `limit`,
      and every prefix `u` of its concatenation, the greedy pass over `u`
      needs no more than |q| blocks. */
  lemma {:induction false} GreedyCountIsFewest(q: seq<seq<nat>>, u: seq<nat>, limit: nat)
    requires AllWithin(q, limit)
    requires |u| <= |Flatten(q)| && u == Flatten(q)[..|u|]
    ensures GreedyCount(u, limit) <= |q|
    decreases |q|
  {
    if u != [] {
      var init := q[..|q| - 1];
      var last := q[|q| - 1];
      assert q == init + [last];
      FlattenAppend(init, last);
      var f := Flatten(init);
      assert AllWithin(init, limit) by {
        forall i | 0 <= i < |init| ensures Sum(init[i]) <= limit {
          assert init[i] == q[i];
        }
      }
      if |u| <= |f| {
        assert u == f[..|u|];
        GreedyCountIsFewest(init, u, limit);
      } else {
        var start := BlockStart(u, limit, 0);
        var t := |u| - |f|;
        assert u == (f + last)[..|u|];
        assert u[|f|..] == last[..t];
        PrefixSumBounded(last, t);
        assert !Overfull(u, |f|, limit);
        assert start <= |f|;
        assert u[..start] == f[..start];
        GreedyCountIsFewest(init, u[..start], limit);
      }
    }
  }

  /** The blocks of `w` at `limit`, built from the right end; exactly `k`
      of them. The last block is the greedy one unless that would leave fewer
      than k - 1 elements for the others, in which case it is cut early. */
  function Build(w: seq<nat>, k: nat, limit: nat): (blocks: seq<seq<nat>>)
    requires 1 <= k <= |w|
    ensures |blocks| == k
    decreases k
  {
    if k == 1 then [w]
    else
      var start := BlockStart(w, limit, k - 1);
      Build(w[..start], k - 1, limit) + [w[start..]]
  }

  /** Whatever the limit, the built blocks are exactly `k` non-empty
      contiguous blocks whose concatenation is `w`. */
  lemma {:induction false} BuildIsPartition(w: seq<nat>, k: nat, limit: nat)
    requires 1 <= k <= |w|
    ensures IsPartition(Build(w, k, limit), w, k)
    decreases k
  {
    if k == 1 {
      assert [w][..0] == [];
    } else {
      var start := BlockStart(w, limit, k - 1);
      var init := Build(w[..start], k - 1, limit);
      assert Build(w, k, limit) == init + [w[start..]];
      BuildIsPartition(w[..start], k - 1, limit);
      PartitionAppend(init, w[..start], w[start..], k - 1);
      assert w[..start] + w[start..] == w;
    }
  }

  /** A split extended by one more non-empty block is a split of the
      extended sequence. */
  lemma PartitionAppend(init: seq<seq<nat>>, w: seq<nat>, last: seq<nat>, k: nat)
    requires IsPartition(init, w, k)
    requires |last| > 0
    ensures IsPartition(init + [last], w + last, k + 1)
  {
    FlattenAppend(init, last);
    assert forall i :: 0 <= i < |init| ==> (init + [last])[i] == init[i];
  }

  /** At a feasible limit every built block stays within the limit. */
  lemma {:induction false} BuildWithin(w: seq<nat>, k: nat, limit: nat)
    requires 1 <= k <= |w|
    requires Feasible(w, k, limit)
    ensures AllWithin(Build(w, k, limit), limit)
    decreases k
  {
    if k == 1 {
      SingleBlockWithin(w, limit);
    } else {
      var start := BlockStart(w, limit, k - 1);
      var p := w[..start];
      RemainderFeasible(w, k, limit);
      assert AllAtMost(p, limit);
      BuildWithin(p, k - 1, limit);
      AllWithinAppend(Build(p, k - 1, limit), w[start..], limit);
    }
  }

  /** A sequence the greedy pass covers with one block fits under the limit. */
  lemma SingleBlockWithin(w: seq<nat>, limit: nat)
    requires 1 <= |w|
    requires Feasible(w, 1, limit)
    ensures AllWithin(Build(w, 1, limit), limit)
  {
    var s0 := BlockStart(w, limit, 0);
    assert GreedyCount(w, limit) == 1 + GreedyCount(w[..s0], limit);
    assert |w[..s0]| == 0;
    assert w[s0..] == w;
  }

  lemma AllWithinAppend(init: seq<seq<nat>>, last: seq<nat>, limit: nat)
    requires AllWithin(init, limit)
    requires Sum(last) <= limit
    ensures AllWithin(init + [last], limit)
  {
    forall i | 0 <= i < |init| + 1 ensures Sum((init + [last])[i]) <= limit {
      if i < |init| {
        assert (init + [last])[i] == init[i];
      }
    }
  }

  /** Once the last block is cut off, what remains is feasible for one block fewer. */
  lemma RemainderFeasible(w: seq<nat>, k: nat, limit: nat)
    requires 2 <= k <= |w|
    requires Feasible(w, k, limit)
    ensures Feasible(w[..BlockStart(w, limit, k - 1)], k - 1, limit)
  {
    var s0 := BlockStart(w, limit, 0);
    BlockStartFloor(w, limit, k - 1);
    if s0 < k - 1 {
      assert |w[..k - 1]| == k - 1;
    }
    var p := w[..BlockStart(w, limit, k - 1)];
    assert forall i :: 0 <= i < |p| ==> p[i] == w[i];
  }

  /** A larger limit stays feasible. */
  lemma FeasibleMonotone(w: seq<nat>, k: nat, a: nat, b: nat)
    requires 1 <= k <= |w|
    requires a <= b
    ensures Feasible(w, k, a) ==> Feasible(w, k, b)
  {
    if Feasible(w, k, a) {
      var q := Build(w, k, a);
      BuildIsPartition(w, k, a);
      BuildWithin(w, k, a);
      assert w[..|w|] == w;
      GreedyCountIsFewest(q, w, b);
      assert forall i :: 0 <= i < |w| ==> w[i] <= a;
    }
  }

  /** Feasibility is exactly the existence of a split into `k` blocks within
      `limit`: the greedy pass decides it. */
  lemma FeasibleIffSplitExists(w: seq<nat>, k: nat, limit: nat)
    requires 1 <= k <= |w|
    ensures Feasible(w, k, limit) <==> exists q :: IsPartition(q, w, k) && AllWithin(q, limit)
  {
    if Feasible(w, k, limit) {
      BuildIsPartition(w, k, limit);
      BuildWithin(w, k, limit);
      var q := Build(w, k, limit);
      assert IsPartition(q, w, k) && AllWithin(q, limit);
    }
    if exists q :: IsPartition(q, w, k) && AllWithin(q, limit) {
      var q :| IsPartition(q, w, k) && AllWithin(q, limit);
      SplitWithinGivesFeasible(q, w, k, limit);
    }
  }

  /** A split into `k` blocks within `limit` makes `limit` feasible. */
  lemma SplitWithinGivesFeasible(q: seq<seq<nat>>, w: seq<nat>, k: nat, limit: nat)
    requires 1 <= k
    requires IsPartition(q, w, k)
    requires AllWithin(q, limit)
    ensures Feasible(w, k, limit)
  {
    var j :| 0 <= j < |q| && Sum(q[j]) == MaxBlockSum(q);
    forall i | 0 <= i < |w| ensures w[i] <= limit {
      ElementsWithinMaxBlockSum(q, i);
    }
    assert w[..|w|] == w;
    GreedyCountIsFewest(q, w, limit);
  }

  /** Binary search for the smallest feasible limit in [lo, hi]. */
  function MinFeasible(w: seq<nat>, k: nat, lo: nat, hi: nat): (limit: nat)
    requires 1 <= k <= |w|
    requires lo <= hi
    requires AllAtMost(w, lo)
    requires Feasible(w, k, hi)
    ensures lo <= limit <= hi
    ensures Feasible(w, k, limit)
    ensures forall l :: lo <= l < limit ==> !Feasible(w, k, l)
    decreases hi - lo
  {
    if lo == hi then lo
    else
      var mid := (lo + hi) / 2;
      if Feasible(w, k, mid) then
        MinFeasible(w, k, lo, mid)
      else
        assert forall l :: lo <= l <= mid ==> !Feasible(w, k, l) by {
          forall l | lo <= l <= mid ensures !Feasible(w, k, l) {
            FeasibleMonotone(w, k, l, mid);
          }
        }
        MinFeasible(w, k, mid + 1, hi)
  }

  /** The whole sequence as one block is within its own sum. */
  lemma SumIsFeasible(w: seq<nat>, k: nat)
    requires 1 <= k <= |w|
    ensures Feasible(w, k, Sum(w))
  {
    assert Flatten([w]) == w by {
      assert [w][..0] == [];
    }
    assert w[..|w|] == w;
    GreedyCountIsFewest([w], w, Sum(w));
    forall i | 0 <= i < |w| ensures w[i] <= Sum(w) {
      ElementAtMostSum(w, i);
    }
  }

  /** The smallest feasible limit for `w` and `k`, searched in [max(w), sum(w)]. */
  function OptimalLimit(w: seq<nat>, k: nat): (limit: nat)
    requires 1 <= k <= |w|
    ensures Max(w) <= limit <= Sum(w)
    ensures Feasible(w, k, limit)
    ensures forall l :: Max(w) <= l < limit ==> !Feasible(w, k, l)
  {
    MaxAtMostSum(w);
    MaxIsUpperBound(w);
    SumIsFeasible(w, k);
    MinFeasible(w, k, Max(w), Sum(w))
  }

  /** The optimal limit is recognised locally: it is the feasible limit
      whose predecessor is infeasible (or which is the largest weight). */
  lemma OptimalLimitCharacterised(w: seq<nat>, k: nat, l: nat)
    requires 1 <= k <= |w|
    requires Max(w) <= l
    ensures OptimalLimit(w, k) == l <==> Feasible(w, k, l) && (l == Max(w) || !Feasible(w, k, l - 1))
  {
    MaxIsUpperBound(w);
    LeastFeasibleIsUnique(w, k, Max(w), OptimalLimit(w, k), l);
  }

  /** Of two limits at or above a bound on every weight, the least feasible
      one is the one that is feasible while its predecessor is not. */
  lemma LeastFeasibleIsUnique(w: seq<nat>, k: nat, lo: nat, opt: nat, l: nat)
    requires 1 <= k <= |w|
    requires AllAtMost(w, lo)
    requires lo <= opt && lo <= l
    requires Feasible(w, k, opt)
    requires forall x :: lo <= x < opt ==> !Feasible(w, k, x)
    ensures opt == l <==> Feasible(w, k, l) && (l == lo || !Feasible(w, k, l - 1))
  {
    if opt < l {
      FeasibleMonotone(w, k, opt, l - 1);
    }
  }

  /** Split `weights` into `partitions` contiguous blocks minimising the
      largest block sum; a non-positive count or fewer weights than blocks is
      an invalid argument. */
  function Solve(weights: seq<nat>, partitions: int): (r: Result<seq<seq<nat>>>)
    ensures r.InvalidArgument? <==> partitions <= 0 || |weights| < partitions
    ensures r.Ok? ==> IsPartition(r.value, weights, partitions)
  {
    if partitions <= 0 then InvalidArgument
    else if |weights| < partitions then InvalidArgument
    else
      BuildIsPartition(weights, partitions, OptimalLimit(weights, partitions));
      Ok(Build(weights, partitions, OptimalLimit(weights, partitions)))
  }

  /** The solver's blocks all fit under the optimal limit. */
  lemma SolveWithinOptimalLimit(weights: seq<nat>, partitions: int)
    requires 1 <= partitions <= |weights|
    ensures Solve(weights, partitions).Ok?
    ensures MaxBlockSum(Solve(weights, partitions).value) <= OptimalLimit(weights, partitions)
  {
    var limit := OptimalLimit(weights, partitions);
    AboveMaxBoundsAll(weights, limit);
    BuildWithin(weights, partitions, limit);
    var blocks := Build(weights, partitions, limit);
    if blocks != [] {
      var i :| 0 <= i < |blocks| && Sum(blocks[i]) == MaxBlockSum(blocks);
    }
  }

  /** Any grouping within `limit` proves `limit` feasible, provided `limit`
      is at least the largest weight. */
  lemma PartitionGivesFeasible(q: seq<seq<nat>>, w: seq<nat>, k: nat)
    requires 1 <= k <= |w|
    requires IsPartition(q, w, k)
    ensures Max(w) <= MaxBlockSum(q)
    ensures Feasible(w, k, MaxBlockSum(q))
  {
    SplitWithinGivesFeasible(q, w, k, MaxBlockSum(q));
    MaxIsLeast(w, MaxBlockSum(q));
  }

  /** Optimality: no other split into `partitions` non-empty contiguous
      blocks has a smaller largest block sum than the solver's. */
  lemma SolveIsOptimal(weights: seq<nat>, partitions: int, q: seq<seq<nat>>)
    requires Solve(weights, partitions).Ok?
    requires IsPartition(q, weights, partitions)
    ensures MaxBlockSum(Solve(weights, partitions).value) <= MaxBlockSum(q)
  {
    SolveWithinOptimalLimit(weights, partitions);
    PartitionGivesFeasible(q, weights, partitions);
  }

  /** The solver's largest block sum is exactly the optimal limit. */
  lemma SolveAttainsOptimalLimit(weights: seq<nat>, partitions: int)
    requires 1 <= partitions <= |weights|
    ensures Solve(weights, partitions).Ok?
    ensures MaxBlockSum(Solve(weights, partitions).value) == OptimalLimit(weights, partitions)
  {
    SolveWithinOptimalLimit(weights, partitions);
    PartitionGivesFeasible(Solve(weights, partitions).value, weights, partitions);
  }

  /** The tie-break policy at the boundary before block `i`: block `i`
      cannot take over the last weight of block i - 1 without exceeding
      `limit`, unless the blocks before it are all single weights (there is
      then nothing to spare). */
  predicate TightBoundary(blocks: seq<seq<nat>>, i: nat, limit: nat)
  {
    && 1 <= i < |blocks|
    && (|blocks[i - 1]| == 0
        || |Flatten(blocks[..i])| == i
        || blocks[i - 1][|blocks[i - 1]| - 1] + Sum(blocks[i]) > limit)
  }

  /** Every boundary keeps the tie-break policy: each later block is as full
      as `limit` allows, and the leading blocks take the spare cuts (at limit
      3, [1, 2, 1] splits as [[1], [2, 1]], not [[1, 2], [1]]). */
  predicate FilledFromRight(blocks: seq<seq<nat>>, limit: nat)
  {
    forall i :: 1 <= i < |blocks| ==> TightBoundary(blocks, i, limit)
  }

  /** Appending a block keeps the policy when the new boundary keeps it. */
  lemma FilledFromRightAppend(init: seq<seq<nat>>, last: seq<nat>, limit: nat)
    requires FilledFromRight(init, limit)
    requires init != [] ==> TightBoundary(init + [last], |init|, limit)
    ensures FilledFromRight(init + [last], limit)
  {
    var bs := init + [last];
    forall i | 1 <= i < |bs| ensures TightBoundary(bs, i, limit) {
      if i < |init| {
        assert TightBoundary(init, i, limit);
        assert bs[..i] == init[..i];
        assert bs[i - 1] == init[i - 1] && bs[i] == init[i];
      }
    }
  }

  /** Dropping the last block keeps the policy. */
  lemma FilledFromRightInit(q: seq<seq<nat>>, limit: nat)
    requires q != []
    requires FilledFromRight(q, limit)
    ensures FilledFromRight(q[..|q| - 1], limit)
  {
    var init := q[..|q| - 1];
    forall i | 1 <= i < |init| ensures TightBoundary(init, i, limit) {
      assert TightBoundary(q, i, limit);
      assert init[..i] == q[..i];
      assert init[i - 1] == q[i - 1] && init[i] == q[i];
    }
  }

  /** The built blocks keep the filled-from-the-right tie-break policy. */
  lemma {:induction false} BuildFilledFromRight(w: seq<nat>, k: nat, limit: nat)
    requires 1 <= k <= |w|
    ensures FilledFromRight(Build(w, k, limit), limit)
    decreases k
  {
    if k > 1 {
      var start := BlockStart(w, limit, k - 1);
      var p := w[..start];
      var init := Build(p, k - 1, limit);
      BuildFilledFromRight(p, k - 1, limit);
      LastBoundaryTight(w, k, limit);
      FilledFromRightAppend(init, w[start..], limit);
    }
  }

  /** The boundary before the last built block keeps the policy. */
  lemma LastBoundaryTight(w: seq<nat>, k: nat, limit: nat)
    requires 2 <= k <= |w|
    ensures TightBoundary(Build(w, k, limit), k - 1, limit)
  {
    var start := BlockStart(w, limit, k - 1);
    var p := w[..start];
    var init := Build(p, k - 1, limit);
    assert Build(w, k, limit) == init + [w[start..]];
    BuildIsPartition(p, k - 1, limit);
    if start > k - 1 {
      BuildEndsWithLast(p, k - 1, limit);
      SuffixSumStep(w, start - 1);
      assert Overfull(w, start - 1, limit);
      assert p[|p| - 1] == w[start - 1];
    }
    TightAppend(init, w[start..], limit);
  }

  /** The last built block ends with the last weight. */
  lemma BuildEndsWithLast(p: seq<nat>, j: nat, limit: nat)
    requires 1 <= j <= |p|
    ensures |Build(p, j, limit)[j - 1]| > 0
    ensures Build(p, j, limit)[j - 1][|Build(p, j, limit)[j - 1]| - 1] == p[|p| - 1]
  {
    BuildIsPartition(p, j, limit);
    FlattenLast(Build(p, j, limit));
  }

  /** Appending a block gives a tight boundary before it when the blocks
      before it are one weight each, or when it cannot take over the last
      weight of the block before it. */
  lemma TightAppend(init: seq<seq<nat>>, last: seq<nat>, limit: nat)
    requires |init| >= 1
    requires || |Flatten(init)| == |init|
             || (&& |init[|init| - 1]| > 0
                 && init[|init| - 1][|init[|init| - 1]| - 1] + Sum(last) > limit)
    ensures TightBoundary(init + [last], |init|, limit)
  {
    var bs := init + [last];
    assert bs[..|init|] == init;
    assert bs[|init| - 1] == init[|init| - 1] && bs[|init|] == last;
  }

  /** The filled-from-the-right policy pins the split down: a split into `k`
      non-empty blocks within `limit` that keeps the policy is the built one. */
  lemma {:induction false} FilledFromRightIsUnique(q: seq<seq<nat>>, w: seq<nat>, k: nat, limit: nat)
    requires 1 <= k
    requires IsPartition(q, w, k)
    requires AllWithin(q, limit)
    requires FilledFromRight(q, limit)
    ensures k <= |w|
    ensures q == Build(w, k, limit)
    decreases k
  {
    FlattenCoversBlocks(q);
    if k == 1 {
      assert q == [q[0]];
      assert q[..0] == [];
      assert Flatten(q) == Flatten(q[..0]) + q[0];
      assert q[0] == w;
    } else {
      var init := q[..k - 1];
      var last := q[k - 1];
      var s := |Flatten(init)|;
      LastBlockStart(q, w, k, limit);
      assert IsPartition(init, w[..s], k - 1) && AllWithin(init, limit) by {
        assert q == init + [last];
        FlattenAppend(init, last);
        assert forall i :: 0 <= i < |init| ==> init[i] == q[i];
      }
      FilledFromRightInit(q, limit);
      FilledFromRightIsUnique(init, w[..s], k - 1, limit);
      assert q == init + [last];
    }
  }

  /** In a filled-from-the-right split within `limit`, the last block
      starts where the builder would start it. */
  lemma LastBlockStart(q: seq<seq<nat>>, w: seq<nat>, k: nat, limit: nat)
    requires 2 <= k
    requires IsPartition(q, w, k)
    requires AllWithin(q, limit)
    requires FilledFromRight(q, limit)
    ensures |Flatten(q[..k - 1])| <= |w|
    ensures k <= |w|
    ensures BlockStart(w, limit, k - 1) == |Flatten(q[..k - 1])|
    ensures w[|Flatten(q[..k - 1])|..] == q[k - 1]
    ensures w[..|Flatten(q[..k - 1])|] == Flatten(q[..k - 1])
  {
    FlattenCoversBlocks(q);
    var init := q[..k - 1];
    var last := q[k - 1];
    assert q == init + [last];
    FlattenAppend(init, last);
    var s := |Flatten(init)|;
    assert forall i :: 0 <= i < |init| ==> init[i] == q[i];
    FlattenCoversBlocks(init);
    assert w[..s] == Flatten(init) && w[s..] == last;
    var st := BlockStart(w, limit, k - 1);
    ElementAtMostSum(last, |last| - 1);
    assert !Overfull(w, s, limit);
    assert TightBoundary(q, k - 1, limit);
    if s > k - 1 {
      FlattenLast(init);
      SuffixSumStep(w, s - 1);
      assert Overfull(w, s - 1, limit);
      SuffixSumMonotone(w, if st < s then st else s - 1, s - 1);
    }
  }

  /** The solver's split keeps the filled-from-the-right tie-break policy at
      its own largest block sum. */
  lemma SolveIsFilledFromRight(weights: seq<nat>, partitions: int)
    requires Solve(weights, partitions).Ok?
    ensures FilledFromRight(Solve(weights, partitions).value, MaxBlockSum(Solve(weights, partitions).value))
  {
    SolveAttainsOptimalLimit(weights, partitions);
    BuildFilledFromRight(weights, partitions, OptimalLimit(weights, partitions));
  }

  /** Tie-breaking is deterministic: of all optimal splits, the solver's is
      the only one that keeps the filled-from-the-right policy. */
  lemma SolveIsTheFilledFromRightOptimum(weights: seq<nat>, partitions: int, q: seq<seq<nat>>)
    requires Solve(weights, partitions).Ok?
    requires IsPartition(q, weights, partitions)
    requires MaxBlockSum(q) <= MaxBlockSum(Solve(weights, partitions).value)
    requires FilledFromRight(q, MaxBlockSum(Solve(weights, partitions).value))
    ensures q == Solve(weights, partitions).value
  {
    SolveAttainsOptimalLimit(weights, partitions);
    FilledFromRightIsUnique(q, weights, partitions, OptimalLimit(weights, partitions));
  }

  /** With all weights zero, the first k - 1 blocks are single weights and
      the last block takes the rest. */
  lemma {:induction false} BuildZeros(w: seq<nat>, k: nat, limit: nat)
    requires 1 <= k <= |w|
    requires forall i :: 0 <= i < |w| ==> w[i] == 0
    ensures forall i :: 0 <= i < k - 1 ==> Build(w, k, limit)[i] == [0]
    ensures Build(w, k, limit)[k - 1] == w[k - 1..]
    decreases k
  {
    if k == 1 {
      assert w[0..] == w;
    } else {
      var p := w[..k - 1];
      var init := Build(p, k - 1, limit);
      assert Build(w, k, limit) == init + [w[k - 1..]] by {
        ZerosCutAtFloor(w, k, limit);
      }
      assert forall i :: 0 <= i < k - 1 ==> init[i] == [0] by {
        BuildZeros(p, k - 1, limit);
        assert p[k - 2..] == [0];
      }
    }
  }

  /** With all weights zero the last block is cut at the floor. */
  lemma ZerosCutAtFloor(w: seq<nat>, k: nat, limit: nat)
    requires 2 <= k <= |w|
    requires forall i :: 0 <= i < |w| ==> w[i] == 0
    ensures Build(w, k, limit) == Build(w[..k - 1], k - 1, limit) + [w[k - 1..]]
  {
    SumOfZeros(w[k - 1..]);
    assert !Overfull(w, k - 1, limit);
    assert BlockStart(w, limit, k - 1) == k - 1;
  }

  /** All-zero weights: every block still gets a weight, the leading blocks
      one each and the last block the rest. */
  lemma SolveZeros(weights: seq<nat>, partitions: int)
    requires 1 <= partitions <= |weights|
    requires forall i :: 0 <= i < |weights| ==> weights[i] == 0
    ensures Solve(weights, partitions).Ok?
    ensures forall i :: 0 <= i < partitions - 1 ==> Solve(weights, partitions).value[i] == [0]
    ensures Solve(weights, partitions).value[partitions - 1] == weights[partitions - 1..]
  {
    BuildZeros(weights, partitions, OptimalLimit(weights, partitions));
  }

  /** One partition: the single block is the whole sequence. */
  lemma SolveSingleStage(weights: seq<nat>)
    requires |weights| >= 1
    ensures Solve(weights, 1) == Ok([weights])
  {
    assert Build(weights, 1, OptimalLimit(weights, 1)) == [weights];
  }
}
