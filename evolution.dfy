/**
 * The run loops of Main: runTestWithGeneticAlgorithm and runTestWithRandom.
 *
 * Both keep the population as a map from distance to itinerary together with
 * the list of distances; an itinerary whose distance is already a key
 * replaces the earlier one in the map, while the list keeps both. Fitness is
 * the parameter `distance`; the initial itineraries, the random itineraries
 * and the children of each generation (parent selection and mate together)
 * are supplied by the parameters `initial`, `randomItinerary` and
 * `offspring`. A null itinerary is None.
 */
module Evolution {
  import opened Wrappers

  datatype RunError =
    | NegativeCapacity       // new ArrayList(n) with n < 0: IllegalArgumentException
    | IndexOutOfBounds       // more fittest requested than distances exist
    | PoolTooSmall(size: int)

  datatype Population = Population(itineraries: map<real, Option<seq<int>>>, distances: seq<real>)

  datatype Best = Best(itinerary: Option<seq<int>>, distance: real)

  /** The map's keys are exactly the distances in the list. */
  ghost predicate KeysMatch(p: Population) {
    forall d :: d in p.itineraries <==> d in p.distances
  }

  function Empty(): (p: Population)
    ensures KeysMatch(p) && p.distances == []
  {
    Population(map[], [])
  }

  /** itineraryPopulation.put(d, it); totalDistances.add(d). */
  function Put(p: Population, d: real, it: Option<seq<int>>): (q: Population)
    ensures KeysMatch(p) ==> KeysMatch(q)
    ensures q.distances == p.distances + [d] && d in q.itineraries && q.itineraries[d] == it
    ensures forall e :: e != d && e in p.itineraries ==> e in q.itineraries && q.itineraries[e] == p.itineraries[e]
  {
    Population(p.itineraries[d := it], p.distances + [d])
  }

  /** A repeated distance overwrites the map entry: the list grows, the map does not. */
  lemma PutOverwrites(p: Population, d: real, it: Option<seq<int>>)
    requires KeysMatch(p) && d in p.distances
    ensures |Put(p, d, it).itineraries| == |p.itineraries|
    ensures |Put(p, d, it).distances| == |p.distances| + 1
  {
    assert Put(p, d, it).itineraries.Keys == p.itineraries.Keys;
  }

  function Elements(s: seq<real>): set<real> {
    set x | x in s
  }

  lemma {:induction false} ElementsBound(s: seq<real>)
    ensures |Elements(s)| <= |s|
  {
    if s != [] {
      var t := s[..|s| - 1];
      ElementsBound(t);
      assert Elements(s) == Elements(t) + {s[|s| - 1]} by {
        assert s == t + [s[|s| - 1]];
      }
    }
  }

  /** The map never holds more itineraries than the list holds distances. */
  lemma MapNoLargerThanList(p: Population)
    requires KeysMatch(p)
    ensures |p.itineraries| <= |p.distances|
  {
    forall x | x in Elements(p.distances) ensures x in p.itineraries.Keys {
      assert x in p.distances;
    }
    forall x | x in p.itineraries.Keys ensures x in Elements(p.distances) {
      assert x in p.itineraries;
    }
    assert p.itineraries.Keys == Elements(p.distances);
    ElementsBound(p.distances);
  }

  ghost predicate SortedAsc(s: seq<real>) {
    forall i, j :: 0 <= i < j < |s| ==> s[i] <= s[j]
  }

  function Insert(x: real, s: seq<real>): (r: seq<real>)
    requires SortedAsc(s)
    ensures SortedAsc(r) && multiset(r) == multiset(s) + multiset{x} && |r| == |s| + 1
  {
    if s == [] then [x]
    else if x <= s[0] then [x] + s
    else
      var rest := Insert(x, s[1..]);
      assert s == [s[0]] + s[1..];
      InsertAbove(s[0], x, s[1..], rest);
      [s[0]] + rest
  }

  /** A value below x and below every element of t stays below their sorted insertion. */
  lemma InsertAbove(y: real, x: real, t: seq<real>, rest: seq<real>)
    requires y < x && (forall k :: 0 <= k < |t| ==> y <= t[k])
    requires SortedAsc(rest) && multiset(rest) == multiset(t) + multiset{x}
    ensures SortedAsc([y] + rest)
  {
    forall k | 0 <= k < |rest| ensures y <= rest[k] {
      assert rest[k] in multiset(rest);
      if rest[k] != x {
        assert rest[k] in multiset(t);
      }
    }
  }

  /** Collections.sort on the distances: ascending, same elements. */
  function SortAscending(s: seq<real>): (r: seq<real>)
    ensures SortedAsc(r) && multiset(r) == multiset(s) && |r| == |s|
  {
    if s == [] then [] else
      assert s == [s[0]] + s[1..];
      Insert(s[0], SortAscending(s[1..]))
  }

  lemma SortedFirstIsMinimum(s: seq<real>)
    requires s != []
    ensures var sorted := SortAscending(s);
      sorted[0] in s && forall d :: d in s ==> sorted[0] <= d
  {
    var sorted := SortAscending(s);
    assert sorted[0] in multiset(sorted);
    forall d | d in s ensures sorted[0] <= d {
      assert d in multiset(s);
      assert d in multiset(sorted);
      var k :| 0 <= k < |sorted| && sorted[k] == d;
    }
  }

  /** The first initial.size() itineraries put into an empty population. */
  function Seed(initial: seq<seq<int>>, distance: seq<int> -> real, n: nat): (p: Population)
    requires n <= |initial|
    ensures KeysMatch(p) && |p.distances| == n
  {
    if n == 0 then Empty()
    else Put(Seed(initial, distance, n - 1), distance(initial[n - 1]), Some(initial[n - 1]))
  }

  /** The itinerary stored under distance d. */
  function Lookup(p: Population, d: real): Option<seq<int>>
    requires KeysMatch(p) && d in p.distances
  {
    p.itineraries[d]
  }

  /** The fittest k itineraries: those stored under the k smallest distances (repeats included). */
  function Fittest(p: Population, k: int): (r: Result<seq<Option<seq<int>>>, RunError>)
    requires KeysMatch(p)
    ensures k < 0 <==> r == Err(NegativeCapacity)
    ensures 0 <= k ==> (k > |p.distances| <==> r == Err(IndexOutOfBounds))
    ensures r.Ok? ==> |r.value| == k
  {
    var sorted := SortAscending(p.distances);
    if k < 0 then Err(NegativeCapacity)
    else if k > |sorted| then Err(IndexOutOfBounds)
    else
      assert forall i :: 0 <= i < k ==> sorted[i] in multiset(p.distances);
      Ok(seq(k, i requires 0 <= i < k => Lookup(p, sorted[i])))
  }

  /** The best after the fittest loop: reset to the smallest distance when k >= 1, kept otherwise. */
  function NewBest(p: Population, k: int, best: Best): (b: Best)
    requires KeysMatch(p) && k <= |p.distances|
  {
    if k >= 1 then
      var sorted := SortAscending(p.distances);
      assert sorted[0] in multiset(p.distances);
      Best(Lookup(p, sorted[0]), sorted[0])
    else best
  }

  /** The POPULATION loop of one generation, from slot `slot` on. */
  function Offspring(pool: seq<Option<seq<int>>>, gen: nat, slot: int, populationSize: int, p: Population,
                     offspring: (seq<Option<seq<int>>>, nat, nat) -> seq<int>, distance: seq<int> -> real): (r: Result<Population, RunError>)
    requires slot >= 0
    ensures r.Ok? ==> |r.value.distances| == |p.distances| + (if slot < populationSize then populationSize - slot else 0)
    ensures r.Ok? ==> r.value.distances[..|p.distances|] == p.distances
    ensures r.Ok? && KeysMatch(p) ==> KeysMatch(r.value)
    ensures slot < populationSize && |pool| < 2 ==> r == Err(PoolTooSmall(|pool|))
    decreases populationSize - slot
  {
    if slot >= populationSize then Ok(p)
    else if |pool| < 2 then Err(PoolTooSmall(|pool|))
    else
      var child := offspring(pool, gen, slot);
      var q := Put(p, distance(child), Some(child));
      var r := Offspring(pool, gen, slot + 1, populationSize, q, offspring, distance);
      assert r.Ok? ==> r.value.distances[..|p.distances|] == r.value.distances[..|q.distances|][..|p.distances|];
      r
  }

  /** One pass of GENERATIONS: sort, pick the fittest, reset the best, refill. */
  function Generation(p: Population, best: Best, gen: nat, k: int, populationSize: int, elitism: bool,
                      offspring: (seq<Option<seq<int>>>, nat, nat) -> seq<int>, distance: seq<int> -> real): Result<(Population, Best), RunError>
    requires KeysMatch(p)
  {
    match Fittest(p, k)
    case Err(e) => Err(e)
    case Ok(pool) =>
      var b := NewBest(p, k, best);
      var start := if elitism then Put(Empty(), b.distance, b.itinerary) else Empty();
      match Offspring(pool, gen, if elitism then 1 else 0, populationSize, start, offspring, distance)
      case Err(e) => Err(e)
      case Ok(q) => Ok((q, b))
  }

  /** Generations gen .. generations-1; the result is the best of the last one. */
  function Generations(p: Population, best: Best, gen: nat, generations: int, k: int, populationSize: int, elitism: bool,
                       offspring: (seq<Option<seq<int>>>, nat, nat) -> seq<int>, distance: seq<int> -> real): Result<Best, RunError>
    requires KeysMatch(p)
    decreases generations - gen
  {
    if gen >= generations then Ok(best)
    else
      match Generation(p, best, gen, k, populationSize, elitism, offspring, distance)
      case Err(e) => Err(e)
      case Ok(next) =>
        Generations(next.0, next.1, gen + 1, generations, k, populationSize, elitism, offspring, distance)
  }

  /** What runTestWithGeneticAlgorithm returns, or the exception it throws. */
  function Genetic(populationSize: int, k: int, generations: int, elitism: bool, initial: seq<seq<int>>,
                   offspring: (seq<Option<seq<int>>>, nat, nat) -> seq<int>, distance: seq<int> -> real): Result<real, RunError>
    requires populationSize >= 0 ==> |initial| == populationSize
  {
    if populationSize < 0 then Err(NegativeCapacity)
    else
      match Generations(Seed(initial, distance, populationSize), Best(None, -1.0), 0, generations, k, populationSize, elitism, offspring, distance)
      case Err(e) => Err(e)
      case Ok(b) => Ok(b.distance)
  }

  /** A pool read entry by entry off the sorted distances is the fittest pool. */
  lemma FittestIsLookups(p: Population, k: int, pool: seq<Option<seq<int>>>)
    requires KeysMatch(p) && 0 <= k <= |p.distances| && |pool| == k
    requires forall j :: 0 <= j < k ==> SortAscending(p.distances)[j] in p.distances
    requires forall j :: 0 <= j < k ==> pool[j] == Lookup(p, SortAscending(p.distances)[j])
    ensures Fittest(p, k) == Ok(pool)
  {
    var sorted := SortAscending(p.distances);
    assert |sorted| == |p.distances|;
    assert Fittest(p, k).Ok?;
    assert forall j :: 0 <= j < k ==> Fittest(p, k).value[j] == pool[j];
    assert Fittest(p, k).value == pool;
  }

  /** STEP 1 of a generation: read the k smallest distances off the sorted list. */
  method CollectFittest(itineraryPopulation: map<real, Option<seq<int>>>, totalDistances: seq<real>, k: int,
                        bestSolution: Option<seq<int>>, bestSolutionDistance: real)
      returns (r: Result<(seq<Option<seq<int>>>, Best), RunError>)
    requires KeysMatch(Population(itineraryPopulation, totalDistances))
    ensures var p := Population(itineraryPopulation, totalDistances);
      match Fittest(p, k)
      case Err(e) => r == Err(e)
      case Ok(pool) => r == Ok((pool, NewBest(p, k, Best(bestSolution, bestSolutionDistance))))
  {
    ghost var p := Population(itineraryPopulation, totalDistances);
    var sorted := SortAscending(totalDistances);
    var best := Best(bestSolution, bestSolutionDistance);
    ghost var f := Fittest(p, k);
    if k < 0 {
      assert f == Err(NegativeCapacity);
      return Err(NegativeCapacity);
    }
    var fittest: seq<Option<seq<int>>> := [];
    var i := 0;
    assert forall j :: 0 <= j < |sorted| ==> sorted[j] in totalDistances by {
      forall j | 0 <= j < |sorted| ensures sorted[j] in totalDistances {
        assert sorted[j] in multiset(sorted);
      }
    }
    while i < k
      invariant 0 <= i <= k && i <= |sorted|
      invariant |fittest| == i
      invariant forall j :: 0 <= j < i ==> fittest[j] == Lookup(p, sorted[j])
      invariant i == 0 ==> best == Best(bestSolution, bestSolutionDistance)
      invariant i > 0 ==> best == Best(fittest[0], sorted[0])
    {
      if i >= |sorted| {
        assert f == Err(IndexOutOfBounds);
        return Err(IndexOutOfBounds);
      }
      var d := sorted[i];
      var itinerary := itineraryPopulation[d];
      assert itinerary == Lookup(p, sorted[i]);
      if i == 0 {
        best := Best(itinerary, d);
      }
      ghost var prefix := fittest;
      fittest := fittest + [itinerary];
      assert forall j :: 0 <= j < i ==> fittest[j] == prefix[j];
      i := i + 1;
    }
    assert i == k;
    FittestIsLookups(p, k, fittest);
    return Ok((fittest, best));
  }

  /** STEP 2 of a generation: clear, carry the best over under elitism, and breed the rest. */
  method Refill(fittest: seq<Option<seq<int>>>, best: Best, gen: nat, populationSize: int, elitism: bool,
                offspring: (seq<Option<seq<int>>>, nat, nat) -> seq<int>, distance: seq<int> -> real)
      returns (r: Result<Population, RunError>)
    ensures r == Offspring(fittest, gen, if elitism then 1 else 0, populationSize,
                           if elitism then Put(Empty(), best.distance, best.itinerary) else Empty(), offspring, distance)
  {
    var itineraryPopulation: map<real, Option<seq<int>>> := map[];
    var totalDistances: seq<real> := [];
    var pop := 0;
    if elitism {
      pop := 1;
      itineraryPopulation := itineraryPopulation[best.distance := best.itinerary];
      totalDistances := totalDistances + [best.distance];
    }
    ghost var first := pop;
    ghost var start := Population(itineraryPopulation, totalDistances);
    while pop < populationSize
      invariant pop >= 0
      invariant Offspring(fittest, gen, pop, populationSize, Population(itineraryPopulation, totalDistances), offspring, distance)
             == Offspring(fittest, gen, first, populationSize, start, offspring, distance)
      decreases populationSize - pop
    {
      if |fittest| < 2 {
        return Err(PoolTooSmall(|fittest|));
      }
      var itinerary := offspring(fittest, gen, pop);
      var d := distance(itinerary);
      itineraryPopulation := itineraryPopulation[d := Some(itinerary)];
      totalDistances := totalDistances + [d];
      pop := pop + 1;
    }
    return Ok(Population(itineraryPopulation, totalDistances));
  }

  /** The first POPULATION loop: one random itinerary (here supplied) per slot. */
  method InitialPopulation(initial: seq<seq<int>>, distance: seq<int> -> real, populationSize: nat)
      returns (itineraryPopulation: map<real, Option<seq<int>>>, totalDistances: seq<real>)
    requires |initial| == populationSize
    ensures Population(itineraryPopulation, totalDistances) == Seed(initial, distance, populationSize)
  {
    itineraryPopulation, totalDistances := map[], [];
    for pop := 0 to populationSize
      invariant Population(itineraryPopulation, totalDistances) == Seed(initial, distance, pop)
    {
      var itinerary := initial[pop];
      var d := distance(itinerary);
      itineraryPopulation := itineraryPopulation[d := Some(itinerary)];
      totalDistances := totalDistances + [d];
    }
  }

  /** runTestWithGeneticAlgorithm with its randomness and fitness supplied. */
  method RunTestWithGeneticAlgorithm(populationSize: int, numFittestToMate: int, generations: int, elitism: bool,
                                     initial: seq<seq<int>>, offspring: (seq<Option<seq<int>>>, nat, nat) -> seq<int>,
                                     distance: seq<int> -> real)
      returns (r: Result<real, RunError>)
    requires populationSize >= 0 ==> |initial| == populationSize
    ensures r == Genetic(populationSize, numFittestToMate, generations, elitism, initial, offspring, distance)
  {
    if populationSize < 0 {
      return Err(NegativeCapacity);
    }
    var itineraryPopulation, totalDistances := InitialPopulation(initial, distance, populationSize);
    var bestSolution: Option<seq<int>> := None;
    var bestSolutionDistance := -1.0;
    var gen := 0;
    while gen < generations
      invariant gen >= 0
      invariant KeysMatch(Population(itineraryPopulation, totalDistances))
      invariant Generations(Population(itineraryPopulation, totalDistances), Best(bestSolution, bestSolutionDistance),
                            gen, generations, numFittestToMate, populationSize, elitism, offspring, distance)
             == Generations(Seed(initial, distance, populationSize), Best(None, -1.0),
                            0, generations, numFittestToMate, populationSize, elitism, offspring, distance)
      decreases generations - gen
    {
      ghost var p := Population(itineraryPopulation, totalDistances);
      ghost var g := Generation(p, Best(bestSolution, bestSolutionDistance), gen, numFittestToMate, populationSize,
                                elitism, offspring, distance);
      var picked := CollectFittest(itineraryPopulation, totalDistances, numFittestToMate, bestSolution, bestSolutionDistance);
      if picked.Err? {
        assert g == Err(picked.error);
        return Err(picked.error);
      }
      var fittest, best := picked.value.0, picked.value.1;
      bestSolution, bestSolutionDistance := best.itinerary, best.distance;
      var next := Refill(fittest, best, gen, populationSize, elitism, offspring, distance);
      if next.Err? {
        assert g == Err(next.error);
        return Err(next.error);
      }
      assert g == Ok((next.value, best));
      itineraryPopulation, totalDistances := next.value.itineraries, next.value.distances;
      gen := gen + 1;
    }
    return Ok(bestSolutionDistance);
  }

  /**
   * Each generation's list holds populationSize distances (one more slot for
   * the elite when the population size is 0), the map's keys are the list's
   * distances, and with a non-empty fittest set the best is reset to the
   * smallest distance of the previous generation.
   */
  lemma GenerationShape(p: Population, best: Best, gen: nat, k: int, populationSize: int, elitism: bool,
                        offspring: (seq<Option<seq<int>>>, nat, nat) -> seq<int>, distance: seq<int> -> real)
    requires KeysMatch(p) && populationSize >= 0
    requires Generation(p, best, gen, k, populationSize, elitism, offspring, distance).Ok?
    ensures var (q, b) := Generation(p, best, gen, k, populationSize, elitism, offspring, distance).value;
      KeysMatch(q) &&
      |q.distances| == (if elitism && populationSize == 0 then 1 else populationSize) &&
      (k >= 1 ==> b.distance in p.distances && (forall d :: d in p.distances ==> b.distance <= d) &&
                  b.itinerary == p.itineraries[b.distance]) &&
      (k < 1 ==> b == best) &&
      (elitism ==> q.distances[0] == b.distance)
  {
    if k >= 1 {
      SortedFirstIsMinimum(p.distances);
    }
  }

  /** With fewer than two fittest itineraries, any generation that must breed a child fails. */
  lemma SmallPoolFails(p: Population, best: Best, gen: nat, k: int, populationSize: int, elitism: bool,
                       offspring: (seq<Option<seq<int>>>, nat, nat) -> seq<int>, distance: seq<int> -> real)
    requires KeysMatch(p) && 0 <= k <= |p.distances| && k < 2
    requires populationSize > (if elitism then 1 else 0)
    ensures Generation(p, best, gen, k, populationSize, elitism, offspring, distance) == Err(PoolTooSmall(k))
  {
  }

  /** A negative number of fittest to mate makes the first generation's list capacity illegal. */
  lemma NegativeMateCountFails(populationSize: int, k: int, generations: int, elitism: bool, initial: seq<seq<int>>,
                               offspring: (seq<Option<seq<int>>>, nat, nat) -> seq<int>, distance: seq<int> -> real)
    requires populationSize >= 0 && |initial| == populationSize && generations >= 1 && k < 0
    ensures Genetic(populationSize, k, generations, elitism, initial, offspring, distance) == Err(NegativeCapacity)
  {
  }

  /** With elitism and a non-empty fittest set, the best distance never gets worse from one generation to the next. */
  lemma ElitismNeverWorsens(p: Population, best: Best, gen: nat, k: int, populationSize: int,
                            offspring: (seq<Option<seq<int>>>, nat, nat) -> seq<int>, distance: seq<int> -> real)
    requires KeysMatch(p) && k >= 1 && populationSize >= 0
    requires Generation(p, best, gen, k, populationSize, true, offspring, distance).Ok?
    ensures var (q, b) := Generation(p, best, gen, k, populationSize, true, offspring, distance).value;
      Generation(q, b, gen + 1, k, populationSize, true, offspring, distance).Ok? ==>
        Generation(q, b, gen + 1, k, populationSize, true, offspring, distance).value.1.distance <= b.distance
  {
    var (q, b) := Generation(p, best, gen, k, populationSize, true, offspring, distance).value;
    GenerationShape(p, best, gen, k, populationSize, true, offspring, distance);
    if Generation(q, b, gen + 1, k, populationSize, true, offspring, distance).Ok? {
      GenerationShape(q, b, gen + 1, k, populationSize, true, offspring, distance);
      assert q.distances[0] in q.distances;
    }
  }

  /** Without any generation the genetic run returns the sentinel -1. */
  lemma NoGenerationsGivesSentinel(populationSize: int, k: int, generations: int, elitism: bool, initial: seq<seq<int>>,
                                   offspring: (seq<Option<seq<int>>>, nat, nat) -> seq<int>, distance: seq<int> -> real)
    requires populationSize >= 0 && |initial| == populationSize && generations <= 0
    ensures Genetic(populationSize, k, generations, elitism, initial, offspring, distance) == Ok(-1.0)
  {
  }

  /** The running best of runTestWithRandom: -1 until the first distance, then replaced by any smaller one. */
  function RunningBest(ds: seq<real>): real {
    if ds == [] then -1.0
    else
      var b := RunningBest(ds[..|ds| - 1]);
      var d := ds[|ds| - 1];
      if b == -1.0 || d < b then d else b
  }

  /** Unless some distance is exactly the sentinel, the running best is the minimum distance generated (and -1 when none was). */
  lemma {:induction false} RunningBestIsMinimum(ds: seq<real>)
    requires forall i :: 0 <= i < |ds| ==> ds[i] != -1.0
    ensures ds == [] ==> RunningBest(ds) == -1.0
    ensures ds != [] ==> RunningBest(ds) in ds && forall i :: 0 <= i < |ds| ==> RunningBest(ds) <= ds[i]
  {
    if ds != [] {
      var t := ds[..|ds| - 1];
      RunningBestIsMinimum(t);
      if t != [] {
        assert forall i :: 0 <= i < |t| ==> t[i] == ds[i];
      }
    }
  }

  /** All distances runTestWithRandom generates, generation by generation. */
  function RandomDistances(populationSize: nat, generations: nat, randomItinerary: (nat, nat) -> seq<int>,
                           distance: seq<int> -> real): seq<real>
  {
    if generations == 0 then []
    else
      RandomDistances(populationSize, generations - 1, randomItinerary, distance) +
      Sample(populationSize, generations - 1, randomItinerary, distance)
  }

  /** The random run samples populationSize itineraries in each generation. */
  lemma {:induction false} RandomDistancesLength(populationSize: nat, generations: nat, randomItinerary: (nat, nat) -> seq<int>,
                                                 distance: seq<int> -> real)
    ensures |RandomDistances(populationSize, generations, randomItinerary, distance)| == populationSize * generations
  {
    if generations > 0 {
      RandomDistancesLength(populationSize, generations - 1, randomItinerary, distance);
      MulSucc(populationSize, generations - 1);
    }
  }

  lemma MulSucc(a: nat, b: nat)
    ensures a * (b + 1) == a * b + a
  {
  }

  /** The distance of every itinerary sampled in every generation is recorded. */
  lemma {:induction false} RandomDistancesRecordsAll(populationSize: nat, generations: nat, randomItinerary: (nat, nat) -> seq<int>,
                                                     distance: seq<int> -> real, g: nat, j: nat)
    requires g < generations && j < populationSize
    ensures distance(randomItinerary(g, j)) in RandomDistances(populationSize, generations, randomItinerary, distance)
  {
    var prev := RandomDistances(populationSize, generations - 1, randomItinerary, distance);
    var last := Sample(populationSize, generations - 1, randomItinerary, distance);
    assert RandomDistances(populationSize, generations, randomItinerary, distance) == prev + last;
    if g == generations - 1 {
      assert (prev + last)[|prev| + j] == last[j];
    } else {
      RandomDistancesRecordsAll(populationSize, generations - 1, randomItinerary, distance, g, j);
    }
  }

  datatype RandomOutcome = RandomOutcome(best: real, population: Population)

  /** The distances of the first n itineraries sampled in generation gen. */
  function Sample(n: nat, gen: nat, randomItinerary: (nat, nat) -> seq<int>, distance: seq<int> -> real): (ds: seq<real>)
    ensures |ds| == n
    ensures forall j :: 0 <= j < n ==> ds[j] == distance(randomItinerary(gen, j))
  {
    if n == 0 then [] else Sample(n - 1, gen, randomItinerary, distance) + [distance(randomItinerary(gen, n - 1))]
  }

  /** One more sample updates the running best exactly as the comparison in the loop does. */
  lemma RunningBestSnoc(ds: seq<real>, d: real)
    ensures RunningBest(ds + [d]) == if RunningBest(ds) == -1.0 || d < RunningBest(ds) then d else RunningBest(ds)
  {
    assert (ds + [d])[..|ds|] == ds;
  }

  /** The POPULATION loop of runTestWithRandom: one generation of random itineraries, each recorded and compared with the running best. */
  method SampleGeneration(gen: nat, populationSize: nat, randomItinerary: (nat, nat) -> seq<int>, distance: seq<int> -> real,
                          itineraryPopulation: map<real, Option<seq<int>>>, totalDistances: seq<real>,
                          bestSolution: Option<seq<int>>, bestSolutionDistance: real)
      returns (itineraries: map<real, Option<seq<int>>>, distances: seq<real>, best: Option<seq<int>>, bestDistance: real)
    requires KeysMatch(Population(itineraryPopulation, totalDistances))
    requires bestSolutionDistance == RunningBest(totalDistances)
    ensures distances == totalDistances + Sample(populationSize, gen, randomItinerary, distance)
    ensures KeysMatch(Population(itineraries, distances))
    ensures bestDistance == RunningBest(distances)
  {
    itineraries, distances, best, bestDistance := itineraryPopulation, totalDistances, bestSolution, bestSolutionDistance;
    for pop := 0 to populationSize
      invariant distances == totalDistances + Sample(pop, gen, randomItinerary, distance)
      invariant KeysMatch(Population(itineraries, distances))
      invariant bestDistance == RunningBest(distances)
    {
      var itinerary := randomItinerary(gen, pop);
      var d := distance(itinerary);
      RunningBestSnoc(distances, d);
      if bestDistance == -1.0 || d < bestDistance {
        bestDistance := d;
        best := Some(itinerary);
      }
      ghost var q := Put(Population(itineraries, distances), d, Some(itinerary));
      assert Sample(pop + 1, gen, randomItinerary, distance) == Sample(pop, gen, randomItinerary, distance) + [d];
      itineraries := itineraries[d := Some(itinerary)];
      distances := distances + [d];
      assert Population(itineraries, distances) == q;
    }
  }

  /**
   * runTestWithRandom with its itineraries supplied; the population it keeps
   * (and never reads) is returned alongside the best distance.
   */
  method RunTestWithRandom(populationSize: int, generations: int, randomItinerary: (nat, nat) -> seq<int>,
                           distance: seq<int> -> real)
      returns (r: Result<RandomOutcome, RunError>)
    ensures populationSize < 0 <==> r == Err(NegativeCapacity)
    ensures populationSize >= 0 ==> (r.Ok? &&
      var ds := RandomDistances(populationSize, if generations < 0 then 0 else generations, randomItinerary, distance);
      r.value.population.distances == ds && KeysMatch(r.value.population) && r.value.best == RunningBest(ds))
  {
    if populationSize < 0 {
      return Err(NegativeCapacity);
    }
    var itineraryPopulation: map<real, Option<seq<int>>> := map[];
    var totalDistances: seq<real> := [];
    var bestSolution: Option<seq<int>> := None;
    var bestSolutionDistance := -1.0;
    var gen := 0;
    while gen < generations
      invariant 0 <= gen && (generations >= 0 ==> gen <= generations) && (generations < 0 ==> gen == 0)
      invariant totalDistances == RandomDistances(populationSize, gen, randomItinerary, distance)
      invariant KeysMatch(Population(itineraryPopulation, totalDistances))
      invariant bestSolutionDistance == RunningBest(totalDistances)
    {
      itineraryPopulation, totalDistances, bestSolution, bestSolutionDistance :=
        SampleGeneration(gen, populationSize, randomItinerary, distance,
                         itineraryPopulation, totalDistances, bestSolution, bestSolutionDistance);
      assert totalDistances == RandomDistances(populationSize, gen + 1, randomItinerary, distance);
      gen := gen + 1;
    }
    assert gen == if generations < 0 then 0 else generations;
    return Ok(RandomOutcome(bestSolutionDistance, Population(itineraryPopulation, totalDistances)));
  }
}
