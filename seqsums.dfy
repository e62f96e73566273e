/** Sums, maxima and concatenation of weight sequences: the vocabulary the
    block-partition solver is stated in. Weights are natural numbers. */
module SeqSums {

  /** Total weight of a sequence. */
  function Sum(s: seq<nat>): nat
  {
    if s == [] then 0 else s[0] + Sum(s[1..])
  }

  /** Largest weight of a sequence, 0 for the empty one. */
  function Max(s: seq<nat>): nat
  {
    if s == [] then 0
    else if s[0] >= Max(s[1..]) then s[0]
    else Max(s[1..])
  }

  /** No weight of `s` exceeds `bound`. */
  predicate AllAtMost(s: seq<nat>, bound: nat)
  {
    forall i :: 0 <= i < |s| ==> s[i] <= bound
  }

  /** Concatenation of a sequence of blocks, in order. */
  function Flatten(blocks: seq<seq<nat>>): seq<nat>
  {
    if blocks == [] then [] else Flatten(blocks[..|blocks| - 1]) + blocks[|blocks| - 1]
  }

  /** The largest block sum of a grouping, 0 for no blocks. */
  function MaxBlockSum(blocks: seq<seq<nat>>): (m: nat)
    ensures forall i :: 0 <= i < |blocks| ==> Sum(blocks[i]) <= m
    ensures blocks != [] ==> exists i :: 0 <= i < |blocks| && Sum(blocks[i]) == m
  {
    if blocks == [] then 0
    else
      var init := blocks[..|blocks| - 1];
      var rest := MaxBlockSum(init);
      var last := Sum(blocks[|blocks| - 1]);
      assert forall i :: 0 <= i < |init| ==> blocks[i] == init[i];
      if last >= rest then last else rest
  }

  /** Every block of a grouping sums to at most `limit`. */
  predicate AllWithin(blocks: seq<seq<nat>>, limit: nat)
  {
    forall i :: 0 <= i < |blocks| ==> Sum(blocks[i]) <= limit
  }

  lemma {:induction false} SumConcat(a: seq<nat>, b: seq<nat>)
    ensures Sum(a + b) == Sum(a) + Sum(b)
  {
    if a == [] {
      assert a + b == b;
    } else {
      assert (a + b)[1..] == a[1..] + b;
      SumConcat(a[1..], b);
    }
  }

  /** A suffix that starts earlier weighs at least as much. */
  lemma SuffixSumMonotone(w: seq<nat>, i: nat, j: nat)
    requires i <= j <= |w|
    ensures Sum(w[j..]) <= Sum(w[i..])
  {
    assert w[i..] == w[i..j] + w[j..];
    SumConcat(w[i..j], w[j..]);
  }

  /** A prefix weighs at most as much as the whole sequence. */
  lemma PrefixSumBounded(s: seq<nat>, n: nat)
    requires n <= |s|
    ensures Sum(s[..n]) <= Sum(s)
  {
    assert s == s[..n] + s[n..];
    SumConcat(s[..n], s[n..]);
  }

  /** One step of a right-to-left scan: the suffix from `i` is w[i] plus the suffix after it. */
  lemma SuffixSumStep(w: seq<nat>, i: nat)
    requires i < |w|
    ensures Sum(w[i..]) == w[i] + Sum(w[i + 1..])
  {
    assert w[i..][1..] == w[i + 1..];
  }

  /** The largest weight bounds every weight. */
  lemma {:induction false} MaxIsUpperBound(s: seq<nat>)
    ensures AllAtMost(s, Max(s))
  {
    if s != [] {
      MaxIsUpperBound(s[1..]);
      assert forall i :: 1 <= i < |s| ==> s[i] == s[1..][i - 1];
    }
  }

  /** ... and is the least such bound. */
  lemma {:induction false} MaxIsLeast(s: seq<nat>, bound: nat)
    requires AllAtMost(s, bound)
    ensures Max(s) <= bound
  {
    if s != [] {
      assert forall i :: 0 <= i < |s| - 1 ==> s[1..][i] == s[i + 1];
      MaxIsLeast(s[1..], bound);
    }
  }

  /** Any bound at or above the largest weight bounds every weight. */
  lemma AboveMaxBoundsAll(s: seq<nat>, bound: nat)
    requires Max(s) <= bound
    ensures AllAtMost(s, bound)
  {
    MaxIsUpperBound(s);
    forall i | 0 <= i < |s| ensures s[i] <= bound {
      assert s[i] <= Max(s);
    }
  }

  /** No single weight exceeds the total. */
  lemma MaxAtMostSum(s: seq<nat>)
    ensures Max(s) <= Sum(s)
  {
    forall i | 0 <= i < |s| ensures s[i] <= Sum(s) {
      ElementAtMostSum(s, i);
    }
    MaxIsLeast(s, Sum(s));
  }

  /** Every element of a block is at most the block's sum. */
  lemma {:induction false} ElementAtMostSum(s: seq<nat>, j: nat)
    requires j < |s|
    ensures s[j] <= Sum(s)
  {
    if j > 0 {
      ElementAtMostSum(s[1..], j - 1);
    }
  }

  lemma FlattenAppend(blocks: seq<seq<nat>>, b: seq<nat>)
    ensures Flatten(blocks + [b]) == Flatten(blocks) + b
  {
    assert (blocks + [b])[..|blocks|] == blocks;
  }

  /** Each weight of a grouping's concatenation is at most the grouping's largest block sum. */
  lemma {:induction false} ElementsWithinMaxBlockSum(blocks: seq<seq<nat>>, i: nat)
    requires i < |Flatten(blocks)|
    ensures Flatten(blocks)[i] <= MaxBlockSum(blocks)
  {
    var init := blocks[..|blocks| - 1];
    var last := blocks[|blocks| - 1];
    assert blocks == init + [last];
    FlattenAppend(init, last);
    if i < |Flatten(init)| {
      ElementsWithinMaxBlockSum(init, i);
      assert MaxBlockSum(init) <= MaxBlockSum(blocks) by {
        var k :| 0 <= k < |init| && Sum(init[k]) == MaxBlockSum(init);
        assert init[k] == blocks[k];
      }
    } else {
      ElementAtMostSum(last, i - |Flatten(init)|);
    }
  }

  lemma {:induction false} FlattenConcat(a: seq<seq<nat>>, b: seq<seq<nat>>)
    ensures Flatten(a + b) == Flatten(a) + Flatten(b)
    decreases |b|
  {
    if b == [] {
      assert a + b == a;
    } else {
      var bi := b[..|b| - 1];
      var bl := b[|b| - 1];
      assert b == bi + [bl];
      assert a + b == (a + bi) + [bl];
      FlattenAppend(a + bi, bl);
      FlattenAppend(bi, bl);
      FlattenConcat(a, bi);
    }
  }

  /** A grouping of non-empty blocks has at least one element per block. */
  lemma {:induction false} FlattenCoversBlocks(blocks: seq<seq<nat>>)
    requires forall i :: 0 <= i < |blocks| ==> |blocks[i]| > 0
    ensures |Flatten(blocks)| >= |blocks|
  {
    if blocks != [] {
      var init := blocks[..|blocks| - 1];
      assert forall i :: 0 <= i < |init| ==> init[i] == blocks[i];
      FlattenCoversBlocks(init);
    }
  }

  /** The last weight of a grouping is the last weight of its last block. */
  lemma FlattenLast(blocks: seq<seq<nat>>)
    requires blocks != [] && |blocks[|blocks| - 1]| > 0
    ensures |Flatten(blocks)| > 0
    ensures Flatten(blocks)[|Flatten(blocks)| - 1] == blocks[|blocks| - 1][|blocks[|blocks| - 1]| - 1]
  {
  }

  /** A sequence of zeros weighs nothing. */
  lemma {:induction false} SumOfZeros(s: seq<nat>)
    requires forall i :: 0 <= i < |s| ==> s[i] == 0
    ensures Sum(s) == 0
  {
    if s != [] {
      assert forall i :: 0 <= i < |s| - 1 ==> s[1..][i] == s[i + 1];
      SumOfZeros(s[1..]);
    }
  }
}
