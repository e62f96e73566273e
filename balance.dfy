/** Stage balancing: the group sizes that the time- and size-based profilers
    hand to the pipeline, obtained from per-layer costs by the block-partition
    solver. */
module Balance {
  import opened SeqSums
  import opened BlockPartition

  /** The number of layers in each block. */
  function Lengths(blocks: seq<seq<nat>>): (sizes: seq<nat>)
    ensures |sizes| == |blocks|
    ensures forall i :: 0 <= i < |blocks| ==> sizes[i] == |blocks[i]|
  {
    seq(|blocks|, i requires 0 <= i < |blocks| => |blocks[i]|)
  }

  /** Cuts `layers` into consecutive groups of the given sizes; layers left
      over after the last size are dropped. */
  function Split(layers: seq<nat>, sizes: seq<nat>): seq<seq<nat>>
    decreases |sizes|
  {
    if sizes == [] then []
    else
      var n := if sizes[0] <= |layers| then sizes[0] else |layers|;
      [layers[..n]] + Split(layers[n..], sizes[1..])
  }

  /** Group sizes for per-layer costs and a stage count: the lengths of the
      solver's blocks, or the solver's invalid-argument error. */
  function BalanceCost(costs: seq<nat>, partitions: int): (r: Result<seq<nat>>)
    ensures r.InvalidArgument? <==> partitions <= 0 || |costs| < partitions
    ensures r.Ok? ==> |r.value| == partitions
    ensures r.Ok? ==> forall i :: 0 <= i < |r.value| ==> r.value[i] > 0
    ensures r.Ok? ==> Sum(r.value) == |costs|
  {
    match Solve(costs, partitions)
    case InvalidArgument => InvalidArgument
    case Ok(blocks) =>
      LengthsSum(blocks);
      Ok(Lengths(blocks))
  }

  /** The sizes add up to the number of layers the blocks hold. */
  lemma {:induction false} LengthsSum(blocks: seq<seq<nat>>)
    ensures Sum(Lengths(blocks)) == |Flatten(blocks)|
    decreases |blocks|
  {
    if blocks != [] {
      var init := blocks[..|blocks| - 1];
      var last := blocks[|blocks| - 1];
      assert Lengths(blocks) == Lengths(init) + [|last|];
      SumConcat(Lengths(init), [|last|]);
      assert Sum([|last|]) == |last| by {
        assert [|last|][1..] == [];
      }
      LengthsSum(init);
    }
  }

  /** The sizes lose nothing: cutting the layers by them gives back the blocks. */
  lemma {:induction false} SplitByLengths(blocks: seq<seq<nat>>)
    ensures Split(Flatten(blocks), Lengths(blocks)) == blocks
    decreases |blocks|
  {
    if blocks != [] {
      var first := blocks[0];
      var rest := blocks[1..];
      assert blocks == [first] + rest;
      FlattenConcat([first], rest);
      assert Flatten([first]) == first by {
        var single: seq<seq<nat>> := [first];
        assert single[..0] == [];
      }
      assert Lengths(blocks)[1..] == Lengths(rest);
      assert (first + Flatten(rest))[..|first|] == first;
      assert (first + Flatten(rest))[|first|..] == Flatten(rest);
      SplitByLengths(rest);
    }
  }

  /** A pipeline that cuts the layers by the reported sizes gets exactly the
      solver's blocks, so the sizes carry the optimal split. */
  lemma BalanceCarriesSolve(costs: seq<nat>, partitions: int)
    requires Solve(costs, partitions).Ok?
    ensures BalanceCost(costs, partitions).Ok?
    ensures Split(costs, BalanceCost(costs, partitions).value) == Solve(costs, partitions).value
  {
    SplitByLengths(Solve(costs, partitions).value);
  }

  /** A successful solve reports the lengths of its blocks. */
  lemma BalanceOfSolve(costs: seq<nat>, partitions: int, blocks: seq<seq<nat>>)
    requires Solve(costs, partitions) == Ok(blocks)
    ensures BalanceCost(costs, partitions) == Ok(Lengths(blocks))
  {
  }

  /** One stage takes every layer. */
  lemma BalanceSingleStage(costs: seq<nat>)
    requires |costs| >= 1
    ensures BalanceCost(costs, 1) == Ok([|costs|])
  {
    SolveSingleStage(costs);
    assert Lengths([costs]) == [|costs|];
  }
}
