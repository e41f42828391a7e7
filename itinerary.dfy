/**
 * Itinerary helpers of Main: generateRandomItinerary, contains and
 * byteArrayToString. The shuffle of `Collections.shuffle` is supplied as a
 * permutation: position k of the shuffled list takes element shuffle[k].
 */
module Itineraries {
  import opened Wrappers
  import opened Permutations
  import SalesmanMaps

  datatype ItineraryError =
    | NegativeCapacity     // new ArrayList(finish) with finish < 0: IllegalArgumentException

  /** The shuffled list 1..finish: entry k is 1 + shuffle[k]. */
  function Shifted(shuffle: seq<int>): (r: seq<int>)
    ensures |r| == |shuffle|
  {
    seq(|shuffle|, k requires 0 <= k < |shuffle| => shuffle[k] + 1)
  }

  lemma {:induction false} ShiftedCount(shuffle: seq<int>, v: int)
    ensures multiset(Shifted(shuffle))[v] == multiset(shuffle)[v - 1]
  {
    if shuffle != [] {
      var n := |shuffle|;
      ShiftedCount(shuffle[..n - 1], v);
      assert Shifted(shuffle) == Shifted(shuffle[..n - 1]) + [shuffle[n - 1] + 1];
      assert shuffle == shuffle[..n - 1] + [shuffle[n - 1]];
    }
  }

  /**
   * generateRandomItinerary(finish): site 0 first, then the sites 1..finish
   * in shuffled order. `finish` is at most 126 because the byte loop
   * `b <= finish` never ends for 127.
   */
  method GenerateRandomItinerary(finish: int, shuffle: seq<int>) returns (r: Result<seq<int>, ItineraryError>)
    requires finish <= 126
    requires finish >= 0 ==> |shuffle| == finish && IsPermutation(shuffle)
    ensures finish < 0 <==> r == Err(NegativeCapacity)
    ensures finish >= 0 ==> r.Ok? && r.value == [0] + Shifted(shuffle)
    ensures finish >= 0 ==> |r.value| == finish + 1 && r.value[0] == 0 && IsPermutation(r.value)
  {
    var size := finish;
    if size < 0 {
      return Err(NegativeCapacity);
    }
    var bytesList: seq<int> := [];
    var b := 1;
    while b <= finish
      invariant 1 <= b <= finish + 1
      invariant bytesList == seq(b - 1, k requires 0 <= k < b - 1 => k + 1)
    {
      bytesList := bytesList + [b];
      b := b + 1;
    }
    var shuffled := seq(|shuffle|, k requires 0 <= k < |shuffle| => bytesList[shuffle[k]]);
    var bytesArr := new int[size + 1];
    bytesArr[0] := 0;
    for i := 1 to bytesArr.Length
      invariant bytesArr[0] == 0
      invariant forall j :: 1 <= j < i ==> bytesArr[j] == shuffled[j - 1]
    {
      bytesArr[i] := shuffled[i - 1];
    }
    assert bytesArr[..] == [0] + Shifted(shuffle);
    GeneratedIsPermutation(finish, shuffle);
    return Ok(bytesArr[..]);
  }

  /** Whatever the shuffle, a generated itinerary starts at site 0 and visits every site 0..finish exactly once. */
  lemma GeneratedIsPermutation(finish: nat, shuffle: seq<int>)
    requires |shuffle| == finish && IsPermutation(shuffle)
    ensures var it := [0] + Shifted(shuffle);
      |it| == finish + 1 && it[0] == 0 && IsPermutation(it)
  {
    var it := [0] + Shifted(shuffle);
    forall v | 0 <= v < |it| ensures multiset(it)[v] == 1 {
      ShiftedCount(shuffle, v);
      assert multiset(it) == multiset{0} + multiset(Shifted(shuffle));
      if v == 0 {
        assert -1 !in shuffle;
      }
    }
  }

  /** contains: a linear scan for b. */
  method Contains(items: seq<int>, b: int) returns (found: bool)
    ensures found <==> b in items
  {
    for i := 0 to |items|
      invariant b !in items[..i]
    {
      if items[i] == b {
        return true;
      }
    }
    assert items[..|items|] == items;
    return false;
  }

  /** byteArrayToString: each id as its letter, separated by single spaces. */
  method ByteArrayToString(b: seq<int>) returns (s: string)
    requires forall i :: 0 <= i < |b| ==> -128 <= b[i] <= 127
    ensures |s| == if |b| == 0 then 0 else 2 * |b| - 1
    ensures forall i :: 0 <= i < |b| ==> s[2 * i] == SalesmanMaps.ConvertByteToChar(b[i])
    ensures forall i :: 0 <= i < |b| - 1 ==> s[2 * i + 1] == ' '
  {
    s := "";
    for i := 0 to |b|
      invariant |s| == if i == |b| && i > 0 then 2 * i - 1 else 2 * i
      invariant forall j :: 0 <= j < i ==> s[2 * j] == SalesmanMaps.ConvertByteToChar(b[j])
      invariant forall j :: 0 <= j < i && j < |b| - 1 ==> s[2 * j + 1] == ' '
    {
      s := s + [SalesmanMaps.ConvertByteToChar(b[i])];
      if i < |b| - 1 {
        s := s + " ";
      }
    }
  }
}
