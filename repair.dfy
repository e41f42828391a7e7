/**
 * Main.checkArrayForIntegrity: the fix-point loop that turns a child
 * itinerary with duplicated and missing ids back into a permutation, one
 * overwrite per pass.
 *
 * The Java method works in place on a byte[]; here the array holds ints (all
 * ids written are below 127). The coin `random.nextBoolean()` that chooses
 * which of the two copies of the duplicate is overwritten is the oracle
 * `swapFirst`, indexed by the number of overwrites done so far.
 */
module ArrayIntegrity {
  import opened Wrappers
  import opened Permutations

  /** The exceptions the Java method can throw. */
  datatype RepairError =
    | IndexOutOfBounds                // instanceCount[b]++ with b outside [0, length)
    | UnexpectedCount(count: int)     // an id occurring neither 0, 1 nor 2 times
    | MissingWithoutDuplicate         // a missing id but no duplicated one
    | DuplicateWithoutMissing         // a duplicated id but no missing one

  /** The instanceCount array: how often each id 0..|s|-1 occurs in s. */
  function Counts(s: seq<int>): (c: seq<int>)
    ensures |c| == |s| && forall v :: 0 <= v < |s| ==> c[v] == multiset(s)[v]
  {
    seq(|s|, v requires 0 <= v < |s| => multiset(s)[v])
  }

  /** Outcome of the FIND_BYTES_TO_SWAP scan: the lowest id counted 0 and the lowest counted 2 (-1 for none), or the first count outside {0, 1, 2}. */
  datatype Scan = Found(zero: int, two: int) | BadCount(count: int)

  predicate Normal(k: int) {
    k == 0 || k == 1 || k == 2
  }

  /** What the scan has established about the indices below i. */
  predicate ScannedUpTo(c: seq<int>, i: nat, zero: int, two: int) {
    && i <= |c|
    && (forall v :: 0 <= v < i ==> Normal(c[v]))
    && (zero == -1 ==> forall v :: 0 <= v < i ==> c[v] != 0)
    && (zero != -1 ==> 0 <= zero < i && c[zero] == 0 && forall v :: 0 <= v < zero ==> c[v] != 0)
    && (two == -1 ==> forall v :: 0 <= v < i ==> c[v] != 2)
    && (two != -1 ==> 0 <= two < i && c[two] == 2 && forall v :: 0 <= v < two ==> c[v] != 2)
  }

  /**
   * The scan over the counts from index i on, given the lowest zero- and
   * two-count indices found below i; it stops as soon as both are known and
   * fails at the first count outside {0, 1, 2}.
   */
  function ScanFrom(c: seq<int>, i: nat, zero: int, two: int): (r: Scan)
    requires ScannedUpTo(c, i, zero, two)
    requires zero == -1 || two == -1
    ensures r.Found? && r.zero == -1 ==> forall v :: 0 <= v < |c| ==> c[v] != 0
    ensures r.Found? && r.zero != -1 ==> 0 <= r.zero < |c| && c[r.zero] == 0 && forall v :: 0 <= v < r.zero ==> c[v] != 0
    ensures r.Found? && r.two == -1 ==> forall v :: 0 <= v < |c| ==> c[v] != 2
    ensures r.Found? && r.two != -1 ==> 0 <= r.two < |c| && c[r.two] == 2 && forall v :: 0 <= v < r.two ==> c[v] != 2
    ensures r.Found? && (r.zero == -1 || r.two == -1) ==> forall v :: 0 <= v < |c| ==> Normal(c[v])
    ensures r.BadCount? ==> !Normal(r.count) && exists v :: 0 <= v < |c| && c[v] == r.count
    ensures (forall v :: 0 <= v < |c| ==> Normal(c[v])) ==> r.Found?
    decreases |c| - i
  {
    if i == |c| then Found(zero, two)
    else if c[i] == 0 then
      var z := if zero == -1 then i else zero;
      if z != -1 && two != -1 then Found(z, two) else ScanFrom(c, i + 1, z, two)
    else if c[i] == 2 then
      var t := if two == -1 then i else two;
      if zero != -1 && t != -1 then Found(zero, t) else ScanFrom(c, i + 1, zero, t)
    else if c[i] != 1 then BadCount(c[i])
    else ScanFrom(c, i + 1, zero, two)
  }

  /**
   * Index of the k-th occurrence of v in s, searching from i with `found`
   * occurrences already seen before i; |s| when there is none.
   */
  function OccurrenceFrom(s: seq<int>, v: int, k: nat, i: nat, found: nat): (r: nat)
    requires i <= |s| && found == multiset(s[..i])[v]
    ensures i <= r <= |s|
    ensures r < |s| ==> s[r] == v && multiset(s[..r])[v] == k - 1
    ensures found < k <= found + multiset(s[i..])[v] ==> r < |s|
    decreases |s| - i
  {
    if i == |s| then |s|
    else
      assert s[..i + 1] == s[..i] + [s[i]];
      assert s[i..] == [s[i]] + s[i + 1..];
      if s[i] == v && found + 1 == k then i
      else OccurrenceFrom(s, v, k, i + 1, if s[i] == v then found + 1 else found)
  }

  /** One step of the occurrence search: the count seen so far and the search from the next index. */
  lemma OccurrenceStep(s: seq<int>, v: int, k: nat, i: nat, found: nat)
    requires i < |s| && found == multiset(s[..i])[v]
    ensures multiset(s[..i + 1])[v] == found + (if s[i] == v then 1 else 0)
    ensures OccurrenceFrom(s, v, k, i, found) ==
      if s[i] == v && found + 1 == k then i
      else OccurrenceFrom(s, v, k, i + 1, found + (if s[i] == v then 1 else 0))
  {
    assert s[..i + 1] == s[..i] + [s[i]];
  }

  /** One pass of the SWAP_TWO_SITES loop. */
  datatype Step = Done | Fail(error: RepairError) | Write(pos: nat, value: int)

  /**
   * One pass: count, scan, then either stop, throw, or overwrite one copy of
   * the lowest duplicated id (the first copy when swapFirst, else the
   * second) with the lowest missing id.
   */
  function Pass(s: seq<int>, swapFirst: bool): (r: Step)
    ensures r.Done? <==> IsPermutation(s)
    ensures r == Fail(IndexOutOfBounds) <==> !InRange(s)
    ensures r.Write? ==>
      && r.pos < |s| && multiset(s)[s[r.pos]] == 2
      && (forall v :: 0 <= v < s[r.pos] ==> multiset(s)[v] != 2)
      && 0 <= r.value < |s| && multiset(s)[r.value] == 0
      && (forall v :: 0 <= v < r.value ==> multiset(s)[v] != 0)
      && multiset(s[..r.pos])[s[r.pos]] == (if swapFirst then 0 else 1)
  {
    if !InRange(s) then Fail(IndexOutOfBounds)
    else
      var c := Counts(s);
      match ScanFrom(c, 0, -1, -1)
      case BadCount(k) => Fail(UnexpectedCount(k))
      case Found(z, t) =>
        if z == -1 && t == -1 then Done
        else if t == -1 then Fail(MissingWithoutDuplicate)
        else if z == -1 then Fail(DuplicateWithoutMissing)
        else
          assert s[0..] == s && s[..0] == [];
          Write(OccurrenceFrom(s, t, if swapFirst then 1 else 2, 0, 0), z)
  }

  /** Overwriting one copy of a duplicated id with a missing id removes exactly that id from the missing set. */
  lemma WriteFillsMissing(s: seq<int>, p: nat, z: int)
    requires p < |s| && multiset(s)[s[p]] == 2
    requires 0 <= z < |s| && multiset(s)[z] == 0
    ensures MissingSet(s[p := z]) == MissingSet(s) - {z}
    ensures |MissingSet(s[p := z])| == |MissingSet(s)| - 1
  {
    assert z in MissingSet(s);
  }

  /** The whole loop: the final array, the number of overwrites and the exception, if any. */
  datatype RepairRun = RepairRun(final: seq<int>, passes: nat, error: Option<RepairError>)

  /** The loop run from s after k overwrites; it stops because every overwrite fills a missing id. */
  function Repair(s: seq<int>, swapFirst: nat -> bool, k: nat): (r: RepairRun)
    ensures |r.final| == |s| && r.passes >= k
    decreases |MissingSet(s)|
  {
    match Pass(s, swapFirst(k))
    case Done => RepairRun(s, k, None)
    case Fail(e) => RepairRun(s, k, Some(e))
    case Write(p, z) =>
      WriteFillsMissing(s, p, z);
      Repair(s[p := z], swapFirst, k + 1)
  }

  /** The counting phase of a pass: fills instanceCount, or reports the first id outside [0, length). */
  method CountInstances(child: array<int>) returns (instanceCount: array<int>, inRange: bool)
    ensures fresh(instanceCount)
    ensures inRange == InRange(child[..])
    ensures inRange ==> instanceCount[..] == Counts(child[..])
  {
    var n := child.Length;
    ghost var s := child[..];
    instanceCount := new int[n](_ => 0);
    for j := 0 to n
      invariant forall i :: 0 <= i < j ==> 0 <= child[i] < n
      invariant forall v :: 0 <= v < n ==> instanceCount[v] == multiset(s[..j])[v]
    {
      var b := child[j];
      if b < 0 || b >= n {
        return instanceCount, false;
      }
      assert s[..j + 1] == s[..j] + [b];
      instanceCount[b] := instanceCount[b] + 1;
    }
    assert s[..n] == s;
    inRange := true;
  }

  /** The FIND_BYTES_TO_SWAP loop over the counts. */
  method FindBytesToSwap(instanceCount: array<int>) returns (scan: Scan)
    requires instanceCount.Length <= 127
    ensures scan == ScanFrom(instanceCount[..], 0, -1, -1)
  {
    ghost var c := instanceCount[..];
    var zero, two := -1, -1;
    var index := 0;
    while index < instanceCount.Length
      invariant ScannedUpTo(c, index, zero, two) && (zero == -1 || two == -1)
      invariant ScanFrom(c, index, zero, two) == ScanFrom(c, 0, -1, -1)
    {
      ghost var z0, t0 := zero, two;
      if instanceCount[index] == 0 {
        if zero == -1 {
          zero := index;
        }
      } else if instanceCount[index] == 2 {
        if two == -1 {
          two := index;
        }
      } else if instanceCount[index] != 1 {
        return BadCount(instanceCount[index]);
      }
      if two != -1 && zero != -1 {
        assert ScanFrom(c, index, z0, t0) == Found(zero, two);
        break;
      }
      index := index + 1;
    }
    scan := Found(zero, two);
  }

  /**
   * The overwriting loop of a pass: the first (isSwapFirst) or second copy of
   * the duplicated id `two` becomes `zero`. The Java loop runs over the whole
   * array; it always stops at that copy, so its fall-through and its
   * "found > 2" throw are unreachable.
   */
  method OverwriteDuplicate(child: array<int>, two: int, zero: int, isSwapFirst: bool)
    requires multiset(child[..])[two] == 2
    modifies child
    ensures var s := old(child[..]);
      assert s[0..] == s && s[..0] == [];
      child[..] == s[OccurrenceFrom(s, two, if isSwapFirst then 1 else 2, 0, 0) := zero]
  {
    ghost var s := child[..];
    var k := if isSwapFirst then 1 else 2;
    assert s[0..] == s && s[..0] == [];
    ghost var target := OccurrenceFrom(s, two, k, 0, 0);
    var found := 0;
    var i := 0;
    while true
      invariant child[..] == s
      invariant i <= target < child.Length
      invariant found < k && found == multiset(s[..i])[two]
      invariant OccurrenceFrom(s, two, k, i, found) == target
      decreases target - i
    {
      OccurrenceStep(s, two, k, i, found);
      if child[i] == two {
        found := found + 1;
        if (found == 1 && isSwapFirst) || (found == 2 && !isSwapFirst) {
          child[i] := zero;
          return;
        }
      }
      i := i + 1;
    }
  }

  /**
   * The Java method. Each pass of SWAP_TWO_SITES either finds nothing to
   * fix, throws, or overwrites one position and starts over; the number of
   * missing ids measures its progress.
   */
  method CheckArrayForIntegrity(child: array<int>, swapFirst: nat -> bool) returns (passes: nat, error: Option<RepairError>)
    requires child.Length <= 127
    modifies child
    ensures var run := Repair(old(child[..]), swapFirst, 0);
      child[..] == run.final && passes == run.passes && error == run.error
  {
    passes := 0;
    while true
      invariant Repair(child[..], swapFirst, passes) == Repair(old(child[..]), swapFirst, 0)
      decreases |MissingSet(child[..])|
    {
      ghost var s := child[..];
      var instanceCount, inRange := CountInstances(child);
      if !inRange {
        return passes, Some(IndexOutOfBounds);
      }
      var scan := FindBytesToSwap(instanceCount);
      if scan.BadCount? {
        return passes, Some(UnexpectedCount(scan.count));
      }
      var zero, two := scan.zero, scan.two;
      if zero == -1 && two == -1 {
        return passes, None;
      } else if zero != -1 && two == -1 {
        return passes, Some(MissingWithoutDuplicate);
      } else if zero == -1 && two != -1 {
        return passes, Some(DuplicateWithoutMissing);
      }
      var isSwapFirst := swapFirst(passes);
      assert s[0..] == s && s[..0] == [];
      ghost var target := OccurrenceFrom(s, two, if isSwapFirst then 1 else 2, 0, 0);
      assert Pass(s, isSwapFirst) == Write(target, zero);
      WriteFillsMissing(s, target, zero);
      OverwriteDuplicate(child, two, zero, isSwapFirst);
      passes := passes + 1;
    }
  }

  /** Repairing a permutation changes nothing and takes no pass. */
  lemma RepairOfPermutation(s: seq<int>, swapFirst: nat -> bool, k: nat)
    requires IsPermutation(s)
    ensures Repair(s, swapFirst, k) == RepairRun(s, k, None)
  {
  }

  /** With ids in range and counts at most 2, no pass throws. */
  lemma PassNeverFails(s: seq<int>, swapFirst: bool)
    requires InRange(s) && AtMostTwice(s)
    ensures !Pass(s, swapFirst).Fail?
  {
    MissingMatchesDuplicated(s);
    var c := Counts(s);
    assert forall v :: 0 <= v < |c| ==> Normal(c[v]);
  }

  /**
   * The two one-sided assertion throws cannot be reached: once the scan has
   * finished, every count is 0, 1 or 2, so a missing id exists exactly when a
   * doubled id does.
   */
  lemma OneSidedFailuresUnreachable(s: seq<int>, swapFirst: bool)
    ensures Pass(s, swapFirst) != Fail(MissingWithoutDuplicate)
    ensures Pass(s, swapFirst) != Fail(DuplicateWithoutMissing)
  {
    if InRange(s) {
      var c := Counts(s);
      var scan := ScanFrom(c, 0, -1, -1);
      if scan.Found? && (scan.zero == -1 || scan.two == -1) {
        assert AtMostTwice(s) by {
          forall v | 0 <= v < |s| ensures multiset(s)[v] <= 2 {
            assert Normal(c[v]);
          }
        }
        MissingMatchesDuplicated(s);
        if scan.zero == -1 {
          assert forall v :: 0 <= v < |s| ==> multiset(s)[v] != 0;
        }
        if scan.two == -1 {
          assert forall v :: 0 <= v < |s| ==> multiset(s)[v] != 2;
        }
      }
    }
  }

  /**
   * From ids in range with counts at most 2 the loop ends without throwing,
   * leaves a permutation, makes one pass per missing id, and never touches a
   * position whose id occurred exactly once.
   */
  lemma {:induction false} RepairRestoresPermutation(s: seq<int>, swapFirst: nat -> bool, k: nat)
    requires InRange(s) && AtMostTwice(s)
    ensures var r := Repair(s, swapFirst, k);
      && r.error == None
      && IsPermutation(r.final)
      && r.passes == k + |MissingSet(s)|
      && forall i :: 0 <= i < |s| && multiset(s)[s[i]] == 1 ==> r.final[i] == s[i]
    decreases |MissingSet(s)|
  {
    var step := Pass(s, swapFirst(k));
    PassNeverFails(s, swapFirst(k));
    if step.Done? {
      assert MissingSet(s) == {};
    } else {
      var p, z := step.pos, step.value;
      var t := s[p := z];
      WriteFillsMissing(s, p, z);
      WriteKeepsShape(s, p, z);
      assert Repair(s, swapFirst, k) == Repair(t, swapFirst, k + 1);
      RepairRestoresPermutation(t, swapFirst, k + 1);
    }
  }

  /** Overwriting a doubled id with a missing one keeps the ids in range and at most twice, and leaves single ids single and in place. */
  lemma WriteKeepsShape(s: seq<int>, p: nat, z: int)
    requires InRange(s) && AtMostTwice(s)
    requires p < |s| && multiset(s)[s[p]] == 2
    requires 0 <= z < |s| && multiset(s)[z] == 0
    ensures InRange(s[p := z]) && AtMostTwice(s[p := z])
    ensures forall i :: 0 <= i < |s| && multiset(s)[s[i]] == 1 ==> s[p := z][i] == s[i] && multiset(s[p := z])[s[i]] == 1
  {
    var t := s[p := z];
    forall v | 0 <= v < |t| ensures multiset(t)[v] == multiset(s)[v] - (if v == s[p] then 1 else 0) + (if v == z then 1 else 0) {
    }
    forall i | 0 <= i < |s| && multiset(s)[s[i]] == 1 ensures t[i] == s[i] && multiset(t)[t[i]] == 1 {
      assert i != p;
    }
  }

  /** An id occurring three or more times makes the loop throw sooner or later. */
  lemma {:induction false} RepairRejectsOverfull(s: seq<int>, swapFirst: nat -> bool, k: nat, v: int)
    requires InRange(s) && 0 <= v < |s| && multiset(s)[v] > 2
    ensures Repair(s, swapFirst, k).error.Some?
    decreases |MissingSet(s)|
  {
    var step := Pass(s, swapFirst(k));
    if step.Write? {
      var p, z := step.pos, step.value;
      var t := s[p := z];
      WriteFillsMissing(s, p, z);
      assert multiset(t)[v] == multiset(s)[v];
      assert InRange(t);
      RepairRejectsOverfull(t, swapFirst, k + 1, v);
    }
  }

  /** The loop finishes without an exception exactly when every id is in range and occurs at most twice. */
  lemma RepairSucceedsIff(s: seq<int>, swapFirst: nat -> bool, k: nat)
    ensures Repair(s, swapFirst, k).error == None <==> InRange(s) && AtMostTwice(s)
  {
    if InRange(s) && AtMostTwice(s) {
      RepairRestoresPermutation(s, swapFirst, k);
    } else if InRange(s) {
      var v :| 0 <= v < |s| && multiset(s)[v] > 2;
      RepairRejectsOverfull(s, swapFirst, k, v);
    }
  }
}
