/**
 * Main.mate: per-position crossover of two parent itineraries, repair, then
 * a mutation pass where every mutation is followed by a repair.
 *
 * Random draws are oracle parameters: `startWithParent1` is the first
 * `random.nextBoolean()`, `crossover[i]` is `random.nextFloat() < crossOverRate`
 * at position i, `mutate[i]` is `r < mutationRate * 2` and `mutationValues[i]`
 * the `random.nextInt(parent1.length)` drawn when position i mutates. Each
 * call of the repair gets its own coin stream.
 */
module Breeding {
  import opened Wrappers
  import opened Permutations
  import opened ArrayIntegrity

  datatype MateError = LengthMismatch | Integrity(error: RepairError)

  /** Number of crossover flips among the first i positions. */
  function FlipsBefore(flips: seq<bool>, i: nat): nat
    requires i <= |flips|
  {
    if i == 0 then 0 else FlipsBefore(flips, i - 1) + (if flips[i - 1] then 1 else 0)
  }

  /** parent1 is the source at position i when the starting coin chose it and an even number of flips happened before i, or the reverse. */
  function FromParent1(startWithParent1: bool, flips: seq<bool>, i: nat): bool
    requires i <= |flips|
  {
    if FlipsBefore(flips, i) % 2 == 0 then startWithParent1 else !startWithParent1
  }

  /** The child before repair: each position copied from the parent active there. */
  function Crossover(parent1: seq<int>, parent2: seq<int>, startWithParent1: bool, flips: seq<bool>): (c: seq<int>)
    requires |parent2| == |parent1| && |flips| == |parent1|
    ensures |c| == |parent1|
  {
    seq(|parent1|, i requires 0 <= i < |parent1| =>
      if FromParent1(startWithParent1, flips, i) then parent1[i] else parent2[i])
  }

  /** The mutation pass from position i on. */
  function Mutations(s: seq<int>, i: nat, mutate: seq<bool>, values: seq<int>, coins: nat -> nat -> bool): (r: Result<seq<int>, RepairError>)
    requires i <= |s| && |mutate| == |s| && |values| == |s|
    ensures r.Ok? ==> |r.value| == |s|
    decreases |s| - i
  {
    if i == |s| then Ok(s)
    else if !mutate[i] then Mutations(s, i + 1, mutate, values, coins)
    else
      var run := Repair(s[i := values[i]], coins(i), 0);
      if run.error.Some? then Err(run.error.value)
      else Mutations(run.final, i + 1, mutate, values, coins)
  }

  /** What mate returns (or throws) for the given parents and draws. */
  function Bred(parent1: seq<int>, parent2: seq<int>, startWithParent1: bool, crossover: seq<bool>,
                crossoverCoins: nat -> bool, mutate: seq<bool>, mutationValues: seq<int>,
                mutationCoins: nat -> nat -> bool): (r: Result<seq<int>, MateError>)
    requires |crossover| == |parent1| && |mutate| == |parent1| && |mutationValues| == |parent1|
  {
    if |parent1| != |parent2| then Err(LengthMismatch)
    else
      var run := Repair(Crossover(parent1, parent2, startWithParent1, crossover), crossoverCoins, 0);
      if run.error.Some? then Err(Integrity(run.error.value))
      else
        match Mutations(run.final, 0, mutate, values := mutationValues, coins := mutationCoins)
        case Ok(c) => Ok(c)
        case Err(e) => Err(Integrity(e))
  }

  /** The crossover loop of mate: a fresh child array filled from the active parent. */
  method CrossOver(parent1: seq<int>, parent2: seq<int>, startWithParent1: bool, crossover: seq<bool>) returns (child: array<int>)
    requires |parent2| == |parent1| && |crossover| == |parent1|
    ensures fresh(child)
    ensures child[..] == Crossover(parent1, parent2, startWithParent1, crossover)
  {
    child := new int[|parent1|];
    var isParent1 := startWithParent1;
    for index := 0 to |parent1|
      invariant isParent1 == FromParent1(startWithParent1, crossover, index)
      invariant forall i :: 0 <= i < index ==> child[i] == Crossover(parent1, parent2, startWithParent1, crossover)[i]
    {
      if isParent1 {
        child[index] := parent1[index];
      } else {
        child[index] := parent2[index];
      }
      if crossover[index] {
        isParent1 := !isParent1;
      }
    }
  }

  /** The mutation loop of mate, on the repaired child. */
  method MutateAll(child: array<int>, mutate: seq<bool>, mutationValues: seq<int>, mutationCoins: nat -> nat -> bool)
      returns (error: Option<RepairError>)
    requires child.Length <= 127 && |mutate| == child.Length && |mutationValues| == child.Length
    modifies child
    ensures match Mutations(old(child[..]), 0, mutate, mutationValues, mutationCoins)
      case Ok(c) => error == None && child[..] == c
      case Err(e) => error == Some(e)
  {
    ghost var repaired := child[..];
    for index := 0 to child.Length
      invariant Mutations(child[..], index, mutate, mutationValues, mutationCoins)
             == Mutations(repaired, 0, mutate, mutationValues, mutationCoins)
    {
      if mutate[index] {
        child[index] := mutationValues[index];
        var mutationPasses, mutationError := CheckArrayForIntegrity(child, mutationCoins(index));
        if mutationError.Some? {
          return mutationError;
        }
      }
    }
    return None;
  }

  /** Main.mate: crossover, repair, mutation. */
  method Mate(parent1: seq<int>, parent2: seq<int>, startWithParent1: bool, crossover: seq<bool>,
              crossoverCoins: nat -> bool, mutate: seq<bool>, mutationValues: seq<int>,
              mutationCoins: nat -> nat -> bool) returns (r: Result<seq<int>, MateError>)
    requires |parent1| <= 127
    requires |crossover| == |parent1| && |mutate| == |parent1| && |mutationValues| == |parent1|
    ensures r == Bred(parent1, parent2, startWithParent1, crossover, crossoverCoins, mutate, mutationValues, mutationCoins)
    ensures r == Err(LengthMismatch) <==> |parent1| != |parent2|
  {
    if |parent1| != |parent2| {
      return Err(LengthMismatch);
    }
    var child := CrossOver(parent1, parent2, startWithParent1, crossover);
    var passes, error := CheckArrayForIntegrity(child, crossoverCoins);
    if error.Some? {
      return Err(Integrity(error.value));
    }
    var mutationError := MutateAll(child, mutate, mutationValues, mutationCoins);
    if mutationError.Some? {
      return Err(Integrity(mutationError.value));
    }
    return Ok(child[..]);
  }

  /** Position by position, the child before repair has no more copies of an id than the two parents together. */
  lemma {:induction false} CrossoverPrefixCount(parent1: seq<int>, parent2: seq<int>, startWithParent1: bool, flips: seq<bool>, i: nat, v: int)
    requires |parent2| == |parent1| && |flips| == |parent1| && i <= |parent1|
    ensures var c := Crossover(parent1, parent2, startWithParent1, flips);
      multiset(c[..i])[v] <= multiset(parent1[..i])[v] + multiset(parent2[..i])[v]
  {
    if i > 0 {
      var c := Crossover(parent1, parent2, startWithParent1, flips);
      CrossoverPrefixCount(parent1, parent2, startWithParent1, flips, i - 1, v);
      assert c[..i] == c[..i - 1] + [c[i - 1]];
      assert parent1[..i] == parent1[..i - 1] + [parent1[i - 1]];
      assert parent2[..i] == parent2[..i - 1] + [parent2[i - 1]];
    }
  }

  /** Crossing two permutations leaves ids in range, none more than twice: the input the repair loop is built for. */
  lemma CrossoverAtMostTwice(parent1: seq<int>, parent2: seq<int>, startWithParent1: bool, flips: seq<bool>)
    requires IsPermutation(parent1) && IsPermutation(parent2)
    requires |parent2| == |parent1| && |flips| == |parent1|
    ensures var c := Crossover(parent1, parent2, startWithParent1, flips);
      InRange(c) && AtMostTwice(c)
  {
    var c := Crossover(parent1, parent2, startWithParent1, flips);
    var n := |parent1|;
    forall v | 0 <= v < n ensures multiset(c)[v] <= 2 {
      CrossoverPrefixCount(parent1, parent2, startWithParent1, flips, n, v);
      assert c[..n] == c && parent1[..n] == parent1 && parent2[..n] == parent2;
    }
  }

  lemma {:induction false} NoFlipsBefore(flips: seq<bool>, i: nat)
    requires i <= |flips| && forall j :: 0 <= j < |flips| ==> !flips[j]
    ensures FlipsBefore(flips, i) == 0
  {
    if i > 0 {
      NoFlipsBefore(flips, i - 1);
    }
  }

  /** With crossover rate 0 (no flip ever fires) the child before repair is one whole parent. */
  lemma CrossoverWithoutFlipsCopiesParent(parent1: seq<int>, parent2: seq<int>, startWithParent1: bool, flips: seq<bool>)
    requires |parent2| == |parent1| && |flips| == |parent1|
    requires forall j :: 0 <= j < |flips| ==> !flips[j]
    ensures Crossover(parent1, parent2, startWithParent1, flips) == if startWithParent1 then parent1 else parent2
  {
    forall i | 0 <= i < |parent1| ensures FromParent1(startWithParent1, flips, i) == startWithParent1 {
      NoFlipsBefore(flips, i);
    }
  }

  /** Overwriting one entry of a permutation with an id in range leaves every count at most 2. */
  lemma MutatedPermutation(s: seq<int>, i: nat, v: int)
    requires IsPermutation(s) && i < |s| && 0 <= v < |s|
    ensures InRange(s[i := v]) && AtMostTwice(s[i := v])
  {
    var t := s[i := v];
    forall x | 0 <= x < |t| ensures multiset(t)[x] <= 2 {
      assert multiset(t)[x] == multiset(s)[x] - (if x == s[i] then 1 else 0) + (if x == v then 1 else 0);
    }
  }

  /** One mutation of a permutation, then the repair: no exception, and a permutation of the same length. */
  lemma RepairOfMutation(s: seq<int>, i: nat, v: int, coin: nat -> bool)
    requires IsPermutation(s) && i < |s| && 0 <= v < |s|
    ensures var run := Repair(s[i := v], coin, 0);
      run.error == None && |run.final| == |s| && IsPermutation(run.final)
  {
    MutatedPermutation(s, i, v);
    RepairRestoresPermutation(s[i := v], coin, 0);
  }

  /** Every mutation of a permutation is repaired back into a permutation. */
  lemma {:induction false} MutationsKeepPermutation(s: seq<int>, i: nat, mutate: seq<bool>, values: seq<int>, coins: nat -> nat -> bool)
    requires IsPermutation(s) && i <= |s| && |mutate| == |s| && |values| == |s|
    requires forall j :: 0 <= j < |values| ==> 0 <= values[j] < |s|
    ensures var r := Mutations(s, i, mutate, values, coins);
      r.Ok? && IsPermutation(r.value)
    decreases |s| - i
  {
    if i < |s| {
      if !mutate[i] {
        MutationsKeepPermutation(s, i + 1, mutate, values, coins);
      } else {
        RepairOfMutation(s, i, values[i], coins(i));
        var t := Repair(s[i := values[i]], coins(i), 0).final;
        MutationsKeepPermutation(t, i + 1, mutate, values, coins);
        assert Mutations(s, i, mutate, values, coins) == Mutations(t, i + 1, mutate, values, coins);
      }
    }
  }

  /**
   * Two permutation parents of the same length always breed a permutation of
   * that length, whatever the draws, as long as every mutation value is an
   * id below the length.
   */
  lemma MateKeepsPermutation(parent1: seq<int>, parent2: seq<int>, startWithParent1: bool, crossover: seq<bool>,
                             crossoverCoins: nat -> bool, mutate: seq<bool>, mutationValues: seq<int>,
                             mutationCoins: nat -> nat -> bool)
    requires IsPermutation(parent1) && IsPermutation(parent2) && |parent1| == |parent2|
    requires |crossover| == |parent1| && |mutate| == |parent1| && |mutationValues| == |parent1|
    requires forall j :: 0 <= j < |mutationValues| ==> 0 <= mutationValues[j] < |parent1|
    ensures var r := Bred(parent1, parent2, startWithParent1, crossover, crossoverCoins, mutate, mutationValues, mutationCoins);
      r.Ok? && |r.value| == |parent1| && IsPermutation(r.value)
  {
    var c := Crossover(parent1, parent2, startWithParent1, crossover);
    CrossoverAtMostTwice(parent1, parent2, startWithParent1, crossover);
    RepairRestoresPermutation(c, crossoverCoins, 0);
    var repaired := Repair(c, crossoverCoins, 0).final;
    MutationsKeepPermutation(repaired, 0, mutate, mutationValues, mutationCoins);
  }

  lemma SmallPermutations()
    ensures IsPermutation([0, 1, 2]) && IsPermutation([1, 0, 2])
  {
    assert multiset([0, 1, 2])[0] == 1 && multiset([0, 1, 2])[1] == 1 && multiset([0, 1, 2])[2] == 1;
    assert multiset([1, 0, 2])[0] == 1 && multiset([1, 0, 2])[1] == 1 && multiset([1, 0, 2])[2] == 1;
  }

  /** The first pass over [0,0,2] with a first-occurrence coin writes the missing 1 over the first 0. */
  lemma PassOfDoubledZero()
    ensures Pass([0, 0, 2], true) == Write(0, 1)
  {
    var t := [0, 0, 2];
    assert multiset(t) == multiset{0, 0, 2};
    assert InRange(t) && AtMostTwice(t);
    assert !IsPermutation(t) by {
      assert multiset(t)[1] == 0;
    }
    PassNeverFails(t, true);
    var step := Pass(t, true);
    assert step.Write?;
    assert t[step.pos] == 0;
    assert step.value == 1;
    assert step.pos == 0;
  }

  /** Repairing [0,0,2] with a first-occurrence coin takes one pass and gives [1,0,2]. */
  lemma RepairOfDoubledZero(coins: nat -> bool)
    requires coins(0)
    ensures Repair([0, 0, 2], coins, 0) == RepairRun([1, 0, 2], 1, None)
  {
    PassOfDoubledZero();
    SmallPermutations();
    RepairOfPermutation([1, 0, 2], coins, 1);
    assert [0, 0, 2][0 := 1] == [1, 0, 2];
  }

  /**
   * Breeding does not keep site 0 in front: from parents [0,1,2] and [0,2,1]
   * with no crossover flip, a mutation writing 0 at position 1 is repaired by
   * overwriting the first 0, giving [1,0,2].
   */
  lemma MateMayMoveSiteZero()
    ensures Bred([0, 1, 2], [0, 2, 1], true, [false, false, false], (k: nat) => true,
                 [false, true, false], [0, 0, 0], (i: nat) => (k: nat) => true) == Ok([1, 0, 2])
  {
    var coins := (k: nat) => true;
    var mutationCoins := (i: nat) => (k: nat) => true;
    var p1, p2 := [0, 1, 2], [0, 2, 1];
    CrossoverWithoutFlipsCopiesParent(p1, p2, true, [false, false, false]);
    SmallPermutations();
    RepairOfPermutation(p1, coins, 0);
    assert p1[1 := 0] == [0, 0, 2];
    RepairOfDoubledZero(mutationCoins(1));
    assert Mutations([1, 0, 2], 2, [false, true, false], [0, 0, 0], mutationCoins) == Ok([1, 0, 2]);
    assert Mutations(p1, 1, [false, true, false], [0, 0, 0], mutationCoins) == Ok([1, 0, 2]);
  }
}
