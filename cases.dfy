/** The expected outputs of the solver and of stage balancing, worked out
    on concrete inputs. */
module Cases {
  import opened SeqSums
  import opened BlockPartition
  import opened Balance

  /** At limit 11 the weights 1..6 fit in two blocks, [1, 2, 3, 4] and [5, 6]. */
  lemma IncreasingFeasibleAt11()
    ensures Feasible([1, 2, 3, 4, 5, 6], 2, 11)
  {
    var w: seq<nat> := [1, 2, 3, 4, 5, 6];
    assert BlockStart(w, 11, 0) == 4 && w[..4] == [1, 2, 3, 4];
    assert GreedyCount([1, 2, 3, 4], 11) == 1;
  }

  /** At limit 10 they need three blocks, [1, 2, 3], [4, 5] and [6]. */
  lemma IncreasingInfeasibleAt10()
    ensures !Feasible([1, 2, 3, 4, 5, 6], 2, 10)
  {
    var w: seq<nat> := [1, 2, 3, 4, 5, 6];
    assert BlockStart(w, 10, 0) == 5 && w[..5] == [1, 2, 3, 4, 5];
    assert BlockStart([1, 2, 3, 4, 5], 10, 0) == 3 && w[..3] == [1, 2, 3];
    assert GreedyCount([1, 2, 3], 10) == 1;
  }

  /** The smallest feasible limit for 1..6 in two blocks is 11. */
  lemma IncreasingOptimalLimit()
    ensures OptimalLimit([1, 2, 3, 4, 5, 6], 2) == 11
  {
    var w: seq<nat> := [1, 2, 3, 4, 5, 6];
    MaxIsLeast(w, 10);
    IncreasingFeasibleAt11();
    IncreasingInfeasibleAt10();
    OptimalLimitCharacterised(w, 2, 11);
  }

  /** At limit 11 the two blocks are [1, 2, 3, 4] and [5, 6]. */
  lemma IncreasingBlocks()
    ensures Build([1, 2, 3, 4, 5, 6], 2, 11) == [[1, 2, 3, 4], [5, 6]]
  {
    var w: seq<nat> := [1, 2, 3, 4, 5, 6];
    assert BlockStart(w, 11, 1) == 4;
    assert w[..4] == [1, 2, 3, 4] && w[4..] == [5, 6];
    assert Build(w, 2, 11) == Build([1, 2, 3, 4], 1, 11) + [[5, 6]];
  }

  /** solve([1, 2, 3, 4, 5, 6], 2) is [[1, 2, 3, 4], [5, 6]]: block sums 10
      and 11, and 11 is the smallest largest sum of any two-block split. */
  lemma SolveIncreasing()
    ensures Solve([1, 2, 3, 4, 5, 6], 2) == Ok([[1, 2, 3, 4], [5, 6]])
  {
    IncreasingOptimalLimit();
    IncreasingBlocks();
  }

  /** At limit 11 the weights 6..1 fit in two blocks, [6, 5] and [4, 3, 2, 1]. */
  lemma DecreasingFeasibleAt11()
    ensures Feasible([6, 5, 4, 3, 2, 1], 2, 11)
  {
    var w: seq<nat> := [6, 5, 4, 3, 2, 1];
    assert BlockStart(w, 11, 0) == 2 && w[..2] == [6, 5];
    assert GreedyCount([6, 5], 11) == 1;
  }

  /** At limit 10 they need three blocks, [6], [5] and [4, 3, 2, 1]. */
  lemma DecreasingInfeasibleAt10()
    ensures !Feasible([6, 5, 4, 3, 2, 1], 2, 10)
  {
    var w: seq<nat> := [6, 5, 4, 3, 2, 1];
    assert BlockStart(w, 10, 0) == 2 && w[..2] == [6, 5];
    assert BlockStart([6, 5], 10, 0) == 1;
    assert [6, 5][..1] == [6];
    assert GreedyCount([6], 10) == 1;
  }

  /** The smallest feasible limit for 6..1 in two blocks is 11. */
  lemma DecreasingOptimalLimit()
    ensures OptimalLimit([6, 5, 4, 3, 2, 1], 2) == 11
  {
    var w: seq<nat> := [6, 5, 4, 3, 2, 1];
    MaxIsLeast(w, 10);
    DecreasingFeasibleAt11();
    DecreasingInfeasibleAt10();
    OptimalLimitCharacterised(w, 2, 11);
  }

  /** At limit 11 the two blocks are [6, 5] and [4, 3, 2, 1]. */
  lemma DecreasingBlocks()
    ensures Build([6, 5, 4, 3, 2, 1], 2, 11) == [[6, 5], [4, 3, 2, 1]]
  {
    var w: seq<nat> := [6, 5, 4, 3, 2, 1];
    assert BlockStart(w, 11, 1) == 2;
    assert w[..2] == [6, 5] && w[2..] == [4, 3, 2, 1];
    assert Build(w, 2, 11) == Build([6, 5], 1, 11) + [[4, 3, 2, 1]];
  }

  /** solve([6, 5, 4, 3, 2, 1], 2) is [[6, 5], [4, 3, 2, 1]]. */
  lemma SolveDecreasing()
    ensures Solve([6, 5, 4, 3, 2, 1], 2) == Ok([[6, 5], [4, 3, 2, 1]])
  {
    DecreasingOptimalLimit();
    DecreasingBlocks();
  }

  /** solve([0, 0], 2) is [[0], [0]]: with nothing to balance, every block
      still gets one weight. */
  lemma SolveTwoZeros()
    ensures Solve([0, 0], 2) == Ok([[0], [0]])
  {
    var w: seq<nat> := [0, 0];
    SolveZeros(w, 2);
    var r := Solve(w, 2).value;
    assert w[1..] == [0];
    assert r == [r[0], r[1]];
  }

  /** At limit 2 the weights [1, 2, 1] need three blocks. */
  lemma TieInfeasibleAt2()
    ensures !Feasible([1, 2, 1], 2, 2)
  {
    var w: seq<nat> := [1, 2, 1];
    assert BlockStart(w, 2, 0) == 2 && w[..2] == [1, 2];
    assert BlockStart([1, 2], 2, 0) == 1 && [1, 2][..1] == [1];
    assert GreedyCount([1], 2) == 1;
  }

  /** At limit 3 they fit in two blocks. */
  lemma TieFeasibleAt3()
    ensures Feasible([1, 2, 1], 2, 3)
  {
    var w: seq<nat> := [1, 2, 1];
    assert BlockStart(w, 3, 0) == 1 && w[..1] == [1];
    assert GreedyCount([1], 3) == 1;
  }

  /** The optimal limit for [1, 2, 1] in two blocks is 3. */
  lemma TieOptimalLimit()
    ensures OptimalLimit([1, 2, 1], 2) == 3
  {
    var w: seq<nat> := [1, 2, 1];
    MaxIsLeast(w, 2);
    TieInfeasibleAt2();
    TieFeasibleAt3();
    OptimalLimitCharacterised(w, 2, 3);
  }

  /** At limit 3 the build for [1, 2, 1] is [[1], [2, 1]]. */
  lemma TieBlocks()
    ensures Build([1, 2, 1], 2, 3) == [[1], [2, 1]]
  {
    var w: seq<nat> := [1, 2, 1];
    assert BlockStart(w, 3, 1) == 1;
    assert w[..1] == [1] && w[1..] == [2, 1];
    assert Build(w, 2, 3) == Build([1], 1, 3) + [[2, 1]];
  }

  /** Two splits of [1, 2, 1] into two blocks reach the least largest sum 3;
      the solver keeps the later block full and takes [[1], [2, 1]]. */
  lemma SolveTieBreak()
    ensures Solve([1, 2, 1], 2) == Ok([[1], [2, 1]])
  {
    TieOptimalLimit();
    TieBlocks();
  }

  /** A non-positive number of partitions is an invalid argument. */
  lemma SolveRejectsNonPositive()
    ensures Solve([42], 0) == InvalidArgument
    ensures Solve([42], -1) == InvalidArgument
  {
  }

  /** Fewer weights than partitions is an invalid argument. */
  lemma SolveRejectsShort()
    ensures Solve([], 1) == InvalidArgument
    ensures Solve([42], 2) == InvalidArgument
  {
  }

  /** balance([1, 2, 3, 4, 5, 6], 2) gives stage sizes [4, 2]. */
  lemma BalanceIncreasing()
    ensures BalanceCost([1, 2, 3, 4, 5, 6], 2) == Ok([4, 2])
  {
    SolveIncreasing();
    BalanceOfSolve([1, 2, 3, 4, 5, 6], 2, [[1, 2, 3, 4], [5, 6]]);
    IncreasingSizes();
  }

  /** The blocks [1, 2, 3, 4] and [5, 6] have sizes [4, 2]. */
  lemma IncreasingSizes()
    ensures Lengths([[1, 2, 3, 4], [5, 6]]) == [4, 2]
  {
    var sizes := Lengths([[1, 2, 3, 4], [5, 6]]);
    assert sizes[0] == 4 && sizes[1] == 2;
  }

  /** balance([6, 5, 4, 3, 2, 1], 2) gives stage sizes [2, 4]. */
  lemma BalanceDecreasing()
    ensures BalanceCost([6, 5, 4, 3, 2, 1], 2) == Ok([2, 4])
  {
    SolveDecreasing();
    BalanceOfSolve([6, 5, 4, 3, 2, 1], 2, [[6, 5], [4, 3, 2, 1]]);
    DecreasingSizes();
  }

  /** The blocks [6, 5] and [4, 3, 2, 1] have sizes [2, 4]. */
  lemma DecreasingSizes()
    ensures Lengths([[6, 5], [4, 3, 2, 1]]) == [2, 4]
  {
    var sizes := Lengths([[6, 5], [4, 3, 2, 1]]);
    assert sizes[0] == 2 && sizes[1] == 4;
  }

  /** A single layer in a single stage gives [1]. */
  lemma BalanceOneLayer()
    ensures BalanceCost([7], 1) == Ok([1])
  {
    BalanceSingleStage([7]);
  }
}
