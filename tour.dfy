/**
 * Main.getTotalTravel: the length of an itinerary as the sum of the
 * distances between consecutive sites. The distance is any function of two
 * site ids; for the map it is the root of the squared grid distance.
 */
module Tours {
  import opened SalesmanMaps

  /** Sum of d(it[k], it[k+1]) over k < |it| - 1, accumulated from the front as the loop does. */
  function TourLength(it: seq<int>, d: (int, int) -> real): real {
    if |it| <= 1 then 0.0 else TourLength(it[..|it| - 1], d) + d(it[|it| - 2], it[|it| - 1])
  }

  function Reverse(it: seq<int>): (r: seq<int>)
    ensures |r| == |it|
    ensures forall k :: 0 <= k < |it| ==> r[k] == it[|it| - 1 - k]
  {
    if it == [] then [] else Reverse(it[1..]) + [it[0]]
  }

  ghost predicate Symmetric(d: (int, int) -> real) {
    forall a, b :: d(a, b) == d(b, a)
  }

  /** The sum can equally be taken from the back: first leg plus the rest. */
  lemma {:induction false} TourLengthFront(it: seq<int>, d: (int, int) -> real)
    requires |it| >= 2
    ensures TourLength(it, d) == d(it[0], it[1]) + TourLength(it[1..], d)
  {
    if |it| > 2 {
      var n := |it|;
      TourLengthFront(it[..n - 1], d);
      assert it[..n - 1][1..] == it[1..][..n - 2];
      assert it[..n - 1][0] == it[0] && it[..n - 1][1] == it[1];
    } else {
      assert it[1..][..0] == [];
    }
  }

  /** With a symmetric distance, walking an itinerary backwards covers the same length. */
  lemma {:induction false} TourLengthReversed(it: seq<int>, d: (int, int) -> real)
    requires Symmetric(d)
    ensures TourLength(Reverse(it), d) == TourLength(it, d)
  {
    if |it| >= 2 {
      var rest := Reverse(it[1..]);
      TourLengthReversed(it[1..], d);
      assert Reverse(it) == rest + [it[0]];
      assert (rest + [it[0]])[..|rest|] == rest;
      assert rest[|rest| - 1] == it[1];
      TourLengthFront(it, d);
    }
  }

  /** The distance getDistance computes between two ids on a map whose sites sit at `positions`. */
  function SiteDistance(positions: seq<Point>, sqrt: int -> real): (d: (int, int) -> real)
    ensures Symmetric(d)
  {
    var d := (a: int, b: int) => sqrt(SquaredDistance(LocateIn(positions, a), LocateIn(positions, b)));
    assert forall a, b :: SquaredDistance(LocateIn(positions, a), LocateIn(positions, b)) ==
                          SquaredDistance(LocateIn(positions, b), LocateIn(positions, a)) by {
      forall a, b ensures SquaredDistance(LocateIn(positions, a), LocateIn(positions, b)) ==
                          SquaredDistance(LocateIn(positions, b), LocateIn(positions, a)) {
        SquaredDistanceIsMetricLike(LocateIn(positions, a), LocateIn(positions, b));
      }
    }
    d
  }

  /** getTotalTravel: accumulate getDistance over consecutive pairs. */
  method GetTotalTravel(itinerary: seq<int>, m: SalesmanMap, sqrt: int -> real) returns (distance: real)
    requires m.Valid()
    requires forall k :: 0 <= k < |itinerary| ==> itinerary[k] != -1
    ensures distance == TourLength(itinerary, SiteDistance(m.Position, sqrt))
  {
    ghost var d := SiteDistance(m.Position, sqrt);
    distance := 0.0;
    if |itinerary| == 0 {
      return;
    }
    for index := 0 to |itinerary| - 1
      invariant distance == TourLength(itinerary[..index + 1], d)
    {
      var b1 := itinerary[index];
      var b2 := itinerary[index + 1];
      var leg := m.GetDistance(b1, b2, sqrt);
      assert itinerary[..index + 2][..index + 1] == itinerary[..index + 1];
      distance := distance + leg;
    }
    assert itinerary[..|itinerary|] == itinerary;
  }

  /** On the map, an itinerary and its reverse have the same total travel. */
  lemma MapTourReversible(itinerary: seq<int>, positions: seq<Point>, sqrt: int -> real)
    ensures TourLength(Reverse(itinerary), SiteDistance(positions, sqrt)) == TourLength(itinerary, SiteDistance(positions, sqrt))
  {
    TourLengthReversed(itinerary, SiteDistance(positions, sqrt));
  }
}
