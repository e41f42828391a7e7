/**
 * Main.randomlyPickTwoParents: rank selection of two distinct parents from a
 * mating pool sorted fittest first.
 *
 * Each `random.nextInt(totalWeight)` is an entry of the oracle `draws`. The
 * Java loop keeps drawing until it has two parents; running out of draws here
 * stands for a loop that has not finished (and, for a pool of two, never does).
 */
module Selection {
  import opened Wrappers

  datatype SelectionError = PoolTooSmall(size: int) | DrawsExhausted

  /** 1 + 2 + ... + length: the total weight the Java loop adds up. */
  function TotalWeight(length: nat): nat {
    if length == 0 then 0 else TotalWeight(length - 1) + length
  }

  /** i + (i+1) + ... + (length-1): the weight the FIND_PARENT scan has accumulated once it reaches index i. */
  function CumWeight(length: nat, i: nat): nat
    requires i <= length
    decreases length - i
  {
    if i == length then 0 else i + CumWeight(length, i + 1)
  }

  lemma {:induction false} TotalWeightClosedForm(length: nat)
    ensures 2 * TotalWeight(length) == length * (length + 1)
  {
    if length > 0 {
      TotalWeightClosedForm(length - 1);
    }
  }

  lemma {:induction false} CumWeightClosedForm(length: nat, i: nat)
    requires i <= length
    ensures 2 * CumWeight(length, i) == (length - i) * (length + i - 1)
    decreases length - i
  {
    if i < length {
      CumWeightClosedForm(length, i + 1);
    }
  }

  lemma {:induction false} CumWeightAntitone(length: nat, a: nat, b: nat)
    requires a <= b <= length
    ensures CumWeight(length, b) <= CumWeight(length, a)
    decreases b - a
  {
    if a < b {
      CumWeightAntitone(length, a + 1, b);
    }
  }

  /**
   * The FIND_PARENT scan over indices i-1 down to 1 for the draw r: the first
   * index whose accumulated weight exceeds r, or None when the scan ends
   * without choosing.
   */
  function FindParent(length: nat, r: int, i: nat): (p: Option<nat>)
    requires 1 <= i <= length
    ensures p.Some? ==> 1 <= p.value < i
    decreases i
  {
    if i == 1 then None
    else if r < CumWeight(length, i - 1) then Some(i - 1)
    else FindParent(length, r, i - 1)
  }

  lemma {:induction false} FindParentFrom(length: nat, r: int, i: nat, j: nat)
    requires 1 <= i <= length && r >= CumWeight(length, i)
    ensures FindParent(length, r, i) == Some(j) <==>
      1 <= j < i && CumWeight(length, j + 1) <= r < CumWeight(length, j)
    ensures FindParent(length, r, i) == None <==> r >= CumWeight(length, 1)
    decreases i
  {
    if i > 1 {
      if r >= CumWeight(length, i - 1) {
        FindParentFrom(length, r, i - 1, j);
      } else {
        if 1 <= j < i - 1 {
          CumWeightAntitone(length, j + 1, i - 1);
        }
        CumWeightAntitone(length, 1, i - 1);
      }
    }
  }

  /**
   * As written, index j of the pool is chosen exactly by the draws in
   * [CumWeight(j+1), CumWeight(j)), a range of width j: the weight of a
   * parent is its index, so the least fit is the most likely and the fittest
   * (index 0) is never chosen. The last `length` draws below TotalWeight
   * choose nobody.
   */
  lemma FindParentChoosesByIndex(length: nat, r: int, j: nat)
    requires length >= 1 && r >= 0
    ensures FindParent(length, r, length) == Some(j) <==>
      1 <= j < length && CumWeight(length, j + 1) <= r < CumWeight(length, j)
    ensures j < length ==> CumWeight(length, j + 1) + j == CumWeight(length, j)
    ensures FindParent(length, r, length) == None <==> r >= TotalWeight(length) - length
  {
    FindParentFrom(length, r, length, j);
    TotalWeightClosedForm(length);
    CumWeightClosedForm(length, 1);
  }

  predicate DistinctIndices(chosen: seq<nat>, length: nat) {
    (forall k :: 0 <= k < |chosen| ==> 1 <= chosen[k] < length) &&
    (forall k, l :: 0 <= k < l < |chosen| ==> chosen[k] != chosen[l])
  }

  /** The indices the while loop ends with, given the draws still to come; None when the draws run out first. */
  function Picks(length: nat, draws: seq<int>, chosen: seq<nat>): (r: Option<seq<nat>>)
    requires length >= 1 && |chosen| <= 1 && DistinctIndices(chosen, length)
    ensures r.Some? ==> |r.value| == 2 && DistinctIndices(r.value, length) && r.value[..|chosen|] == chosen
    decreases |draws|
  {
    if draws == [] then None
    else
      match FindParent(length, draws[0], length)
      case None => Picks(length, draws[1..], chosen)
      case Some(i) =>
        if i in chosen then Picks(length, draws[1..], chosen)
        else if |chosen| == 1 then Some(chosen + [i])
        else Picks(length, draws[1..], chosen + [i])
  }

  /** The loop that adds up the total weight. */
  method SumOfRanks(length: int) returns (totalWeight: int)
    requires length >= 0
    ensures totalWeight == TotalWeight(length)
  {
    totalWeight := 0;
    var i := length;
    while i >= 1
      invariant 0 <= i <= length
      invariant totalWeight + TotalWeight(i) == TotalWeight(length)
    {
      totalWeight := totalWeight + i;
      i := i - 1;
    }
  }

  /** Main.randomlyPickTwoParents with its draws supplied. */
  method RandomlyPickTwoParents(matingPool: seq<seq<int>>, draws: seq<int>) returns (r: Result<seq<seq<int>>, SelectionError>)
    requires |matingPool| >= 2 ==> forall k :: 0 <= k < |draws| ==> 0 <= draws[k] < TotalWeight(|matingPool|)
    ensures |matingPool| < 2 ==> r == Err(PoolTooSmall(|matingPool|))
    ensures |matingPool| >= 2 ==>
      match Picks(|matingPool|, draws, [])
      case None => r == Err(DrawsExhausted)
      case Some(ix) => r == Ok([matingPool[ix[0]], matingPool[ix[1]]])
  {
    if |matingPool| < 2 {
      return Err(PoolTooSmall(|matingPool|));
    }
    var length := |matingPool|;
    var totalWeight := SumOfRanks(length);
    var parents: seq<seq<int>> := [];
    var chosenIndices: seq<nat> := [];
    var k := 0;
    while |parents| < 2
      invariant 0 <= k <= |draws| && |chosenIndices| <= 1
      invariant DistinctIndices(chosenIndices, length)
      invariant |parents| == |chosenIndices|
      invariant forall m :: 0 <= m < |parents| ==> parents[m] == matingPool[chosenIndices[m]]
      invariant Picks(length, draws[k..], chosenIndices) == Picks(length, draws, [])
      decreases |draws| - k
    {
      if k == |draws| {
        return Err(DrawsExhausted);
      }
      var randomVal := draws[k];
      assert draws[k..][1..] == draws[k + 1..];
      k := k + 1;
      var weight := 0;
      for i := length downto 1
        invariant weight == CumWeight(length, i)
        invariant FindParent(length, randomVal, length) == FindParent(length, randomVal, i)
      {
        weight := weight + i;
        if randomVal < weight {
          if i !in chosenIndices {
            if |chosenIndices| == 1 {
              return Ok([matingPool[chosenIndices[0]], matingPool[i]]);
            }
            chosenIndices := chosenIndices + [i];
            parents := parents + [matingPool[i]];
          }
          break;
        }
      }
    }
    assert false;
  }

  lemma {:induction false} PairPoolStaysIncomplete(draws: seq<int>, chosen: seq<nat>)
    requires chosen == [] || chosen == [1]
    ensures Picks(2, draws, chosen) == None
    decreases |draws|
  {
    if draws != [] {
      var p := FindParent(2, draws[0], 2);
      assert p == None || p == Some(1);
      if p == Some(1) {
        PairPoolStaysIncomplete(draws[1..], [1]);
        assert 1 in [1] && [] + [1] == [1];
      } else {
        PairPoolStaysIncomplete(draws[1..], chosen);
      }
    }
  }

  /** As written, a mating pool of two never yields two parents, whatever is drawn: only index 1 can be chosen. */
  lemma PairPoolNeverCompletes(draws: seq<int>)
    ensures Picks(2, draws, []) == None
  {
    PairPoolStaysIncomplete(draws, []);
  }

  /** Weight the documented scheme gives ranks 0..i-1 together: length for the fittest, down by one per rank. */
  function RankPrefix(length: nat, i: nat): nat
    requires i <= length
  {
    if i == 0 then 0 else RankPrefix(length, i - 1) + (length - (i - 1))
  }

  /** Documented rank selection for the draw r: the first rank from i on whose prefix weight exceeds r. */
  function SelectByRank(length: nat, r: int, i: nat): (p: Option<nat>)
    requires i <= length
    ensures p.Some? ==> i <= p.value < length
    decreases length - i
  {
    if i == length then None
    else if r < RankPrefix(length, i + 1) then Some(i)
    else SelectByRank(length, r, i + 1)
  }

  lemma {:induction false} RankPrefixIsTotal(length: nat, i: nat)
    requires i <= length
    ensures 2 * RankPrefix(length, i) == i * (2 * length - i + 1)
  {
    if i > 0 {
      RankPrefixIsTotal(length, i - 1);
    }
  }

  lemma {:induction false} RankPrefixMonotone(length: nat, a: nat, b: nat)
    requires a <= b <= length
    ensures RankPrefix(length, a) <= RankPrefix(length, b)
    decreases b - a
  {
    if a < b {
      RankPrefixMonotone(length, a, b - 1);
    }
  }

  lemma {:induction false} SelectByRankFrom(length: nat, r: int, i: nat, j: nat)
    requires i <= length && r >= RankPrefix(length, i)
    ensures SelectByRank(length, r, i) == Some(j) <==>
      i <= j < length && RankPrefix(length, j) <= r < RankPrefix(length, j + 1)
    decreases length - i
  {
    if i < length && r >= RankPrefix(length, i + 1) {
      SelectByRankFrom(length, r, i + 1, j);
    } else if i < length && i < j < length {
      RankPrefixMonotone(length, i + 1, j);
    }
  }

  /**
   * Documented rank selection: every draw below TotalWeight picks a rank, and
   * rank j is picked by exactly the draws in [RankPrefix(j), RankPrefix(j+1)),
   * a range of width length - j, so the fittest has weight length and the
   * least fit weight 1.
   */
  lemma SelectByRankWeights(length: nat, r: int, j: nat)
    requires 0 <= r < TotalWeight(length)
    ensures SelectByRank(length, r, 0) == Some(j) <==>
      j < length && RankPrefix(length, j) <= r < RankPrefix(length, j + 1)
    ensures j < length ==> RankPrefix(length, j + 1) - RankPrefix(length, j) == length - j
    ensures SelectByRank(length, r, 0).Some?
  {
    SelectByRankFrom(length, r, 0, j);
    RankPrefixIsTotal(length, length);
    TotalWeightClosedForm(length);
    var p := SelectByRank(length, r, 0);
    if p.None? {
      SelectByRankNone(length, r, 0);
    }
  }

  lemma {:induction false} SelectByRankNone(length: nat, r: int, i: nat)
    requires i <= length && r >= RankPrefix(length, i) && SelectByRank(length, r, i).None?
    ensures r >= RankPrefix(length, length)
    decreases length - i
  {
    if i < length {
      SelectByRankNone(length, r, i + 1);
    }
  }

  /** The loop of randomlyPickTwoParents driven by the documented selection (ranks from 0). */
  function PicksByRank(length: nat, draws: seq<int>, chosen: seq<nat>): (r: Option<seq<nat>>)
    requires |chosen| <= 1 && forall k :: 0 <= k < |chosen| ==> chosen[k] < length
    ensures r.Some? ==> |r.value| == 2 && r.value[0] != r.value[1] && r.value[0] < length && r.value[1] < length
    decreases |draws|
  {
    if draws == [] then None
    else
      match SelectByRank(length, draws[0], 0)
      case None => PicksByRank(length, draws[1..], chosen)
      case Some(i) =>
        if i in chosen then PicksByRank(length, draws[1..], chosen)
        else if |chosen| == 1 then Some(chosen + [i])
        else PicksByRank(length, draws[1..], chosen + [i])
  }

  /** With the documented selection every pool of two or more can complete: drawing 0 then length picks ranks 0 and 1. */
  lemma PicksByRankCompletes(length: nat)
    requires length >= 2
    ensures PicksByRank(length, [0, length], []) == Some([0, 1])
  {
    assert RankPrefix(length, 1) == length;
    assert RankPrefix(length, 2) == 2 * length - 1;
    assert SelectByRank(length, 0, 0) == Some(0);
    assert SelectByRank(length, length, 1) == Some(1);
    assert SelectByRank(length, length, 0) == Some(1);
    assert 0 !in [] && [] + [0] == [0];
    assert 1 !in [0] && [0] + [1] == [0, 1];
    assert PicksByRank(length, [length], [0]) == Some([0, 1]);
    assert [0, length][1..] == [length];
  }
}
