# Genetic traveling-salesman search: a Dafny model

This project models the permutation machinery of a genetic-algorithm search for
short traveling-salesman itineraries:

- the map of sites (`SalesmanMap`);
- the random itinerary generator;
- the tour length of an itinerary;
- rank-based parent selection;
- breeding (crossover, mutation and the permutation repair `checkArrayForIntegrity`);
- the two run loops, the genetic search and the random-sampling baseline.

An itinerary is a sequence of site ids (Java bytes). The repair keeps it a
permutation of `0..n-1`.

Randomness, and the computations the model does not carry out, are turned into
parameters, so every run is a function of its inputs:

| Java source of randomness or abstracted computation | Parameter in the model |
|---|---|
| `random.nextBoolean()` in the repair | a coin indexed by repair pass, `nat -> bool` |
| `random.nextBoolean()` in `mate` choosing the parent to start from | a boolean `startWithParent1` |
| crossover decisions, mutation decisions and mutation values | one sequence each, indexed by position |
| `random.nextInt(totalWeight)` in selection | a sequence of draws; running out of draws means the selection has not finished within those draws |
| grid placement of the sites | a sequence of drawn points |
| `Collections.shuffle` | a permutation |
| the children bred in each generation | an `offspring` oracle |
| the random itineraries of the genetic run's first population | an `initial` sequence |
| the random itineraries of the random-sampling run | a `randomItinerary` oracle |
| the square root | an `int -> real` parameter |
| the tour length of a whole itinerary | a `distance` parameter |

The modules follow the source:

| Module | File | What it models |
|---|---|---|
| `Permutations` | `permutations.dfy` | permutation and counting vocabulary |
| `ArrayIntegrity` | `repair.dfy` | `checkArrayForIntegrity` |
| `Breeding` | `breeding.dfy` | `mate` |
| `Selection` | `selection.dfy` | `randomlyPickTwoParents` |
| `SalesmanMaps` | `salesman_map.dfy` | the class `SalesmanMap` |
| `Itineraries` | `itinerary.dfy` | `generateRandomItinerary`, `contains`, `byteArrayToString` |
| `Tours` | `tour.dfy` | `getTotalTravel` |
| `Evolution` | `evolution.dfy` | `runTestWithGeneticAlgorithm`, `runTestWithRandom` |

`Wrappers` (`wrappers.dfy`) holds `Option` and `Result`.

Each reachable `RuntimeException` the code throws itself is modelled as an error
value. Four of those throws cannot be reached:

- `found > 2` in the repair and `parents.size() != 2` in selection have no
  error value;
- the two one-sided assertions of the repair, a missing id without a doubled
  one and the reverse, keep the error values `MissingWithoutDuplicate` and
  `DuplicateWithoutMissing`, which `ArrayIntegrity.OneSidedFailuresUnreachable`
  proves no input produces.

Each runtime exception the library raises on the modelled paths is also an
error value:

- the `IllegalArgumentException` of `new ArrayList(n)` with a negative `n`
  (Main.java lines 268, 289, 334 and 559);
- the `IllegalArgumentException` of `random.nextInt(0)` for an empty grid
  dimension (SalesmanMap.java lines 54-55);
- the `ArrayIndexOutOfBoundsException` of counting an out-of-range id;
- the `IndexOutOfBoundsException` of reading past the end of the distance list.

Where the program's own comments and code disagree, or where the code allows
more than its comments suggest, the model follows the code:

- **Selection weights.** The doc comment of `randomlyPickTwoParents`
  (Main.java:362-367) weights the fittest as `n` down to the least fit as 1.
  The scan (Main.java:385-405) weights index `i` by `i`: index 0 gets no
  weight and the least fit index gets the most. See "Findings".
- **Site 0 can move.** `generateRandomItinerary` always puts site 0 first
  (the comment at Main.java:567). Mutation may then move site 0 away from the
  front, so a bred itinerary need not start at site 0.
  `Breeding.MateMayMoveSiteZero` shows an input where this happens.
- **Open tour.** `getTotalTravel` (Main.java:585-589) sums the legs between
  consecutive sites and adds no leg back to the start, so the tour is an open
  path.

## Model

All source paths below are under `src/geneticalgorithmtravelingsalesman/`.

| member | source | states |
|---|---|---|
| Permutations.MissingMatchesDuplicated | src/geneticalgorithmtravelingsalesman/Main.java:504-511 | on an in-range array where no id occurs more than twice, the number of missing ids equals the number of doubled ids, so a missing id exists exactly when a doubled id does; the two one-sided assertion failures cannot happen |
| ArrayIntegrity.CountInstances | src/geneticalgorithmtravelingsalesman/Main.java:473-480 | the counting loop fails exactly when some id lies outside `0..length-1`; otherwise it yields the occurrence counts |
| ArrayIntegrity.ScanFrom | src/geneticalgorithmtravelingsalesman/Main.java:482-502 | the scan reports the lowest id with no occurrence and the lowest id with two occurrences, or -1 when there is none; it reports a count other than 0, 1 or 2 only when one occurs, and always finishes when every count is 0, 1 or 2 |
| ArrayIntegrity.FindBytesToSwap | src/geneticalgorithmtravelingsalesman/Main.java:485-502 | the loop with early exit computes the same scan result |
| ArrayIntegrity.OccurrenceFrom | src/geneticalgorithmtravelingsalesman/Main.java:516-529 | the returned position holds the k-th occurrence of the value, and such a position exists whenever the value occurs at least k times |
| ArrayIntegrity.OverwriteDuplicate | src/geneticalgorithmtravelingsalesman/Main.java:513-530 | of the two occurrences of the doubled id, the first (coin true) or the second (coin false) is overwritten with the missing id; nothing else changes |
| ArrayIntegrity.Pass | src/geneticalgorithmtravelingsalesman/Main.java:472-530 | one pass is done exactly when the child is a permutation and fails with an index error exactly when an id is out of range; a write puts the lowest missing id over the first or second occurrence, chosen by the coin, of the lowest doubled id |
| ArrayIntegrity.WriteFillsMissing | src/geneticalgorithmtravelingsalesman/Main.java:526 | overwriting one of two occurrences with a missing id removes exactly that id from the missing set, so the repair loop terminates |
| ArrayIntegrity.CheckArrayForIntegrity | src/geneticalgorithmtravelingsalesman/Main.java:469-532 | the in-place repair leaves the array, pass count and error equal to the repair run `Repair` on the original contents |
| ArrayIntegrity.RepairOfPermutation | src/geneticalgorithmtravelingsalesman/Main.java:505-506 | a permutation is left unchanged, with no error |
| ArrayIntegrity.PassNeverFails | src/geneticalgorithmtravelingsalesman/Main.java:495-511 | on an in-range array where no id occurs more than twice, a pass never raises any of the assertion errors |
| ArrayIntegrity.OneSidedFailuresUnreachable | src/geneticalgorithmtravelingsalesman/Main.java:504-511 | for every array and coin, a pass never ends in either one-sided assertion failure: a missing id without a doubled one, or a doubled id without a missing one |
| ArrayIntegrity.RepairRestoresPermutation | src/geneticalgorithmtravelingsalesman/Main.java:469-532 | from an in-range array where no id occurs more than twice, repair succeeds and yields a permutation, taking exactly one pass per missing id, and it keeps every id that occurred once at its position |
| ArrayIntegrity.RepairRejectsOverfull | src/geneticalgorithmtravelingsalesman/Main.java:495-497 | an id occurring three or more times makes the repair fail |
| ArrayIntegrity.RepairSucceedsIff | src/geneticalgorithmtravelingsalesman/Main.java:469-532 | repair succeeds if and only if every id is in range and none occurs more than twice |
| Breeding.CrossOver | src/geneticalgorithmtravelingsalesman/Main.java:426-444 | the child array is fresh and equals the crossover of the parents under the given flips |
| Breeding.CrossoverAtMostTwice | src/geneticalgorithmtravelingsalesman/Main.java:432-446 | crossing two permutations gives an in-range array with no id more than twice, which is what the repair accepts |
| Breeding.CrossoverWithoutFlipsCopiesParent | src/geneticalgorithmtravelingsalesman/Main.java:429-444 | with no crossover flip the child is a copy of the parent it started from |
| Breeding.MutatedPermutation | src/geneticalgorithmtravelingsalesman/Main.java:454-457 | writing an in-range id into a permutation leaves an array the repair accepts |
| Breeding.MutateAll | src/geneticalgorithmtravelingsalesman/Main.java:449-459 | the mutation loop, with a repair after each mutation, leaves the array that `Mutations` computes, or reports its error |
| Breeding.MutationsKeepPermutation | src/geneticalgorithmtravelingsalesman/Main.java:449-459 | mutating a permutation with in-range values always succeeds and yields a permutation |
| Breeding.Mate | src/geneticalgorithmtravelingsalesman/Main.java:422-463 | mate computes `Bred`, and fails with the length assertion exactly when the parents differ in length |
| Breeding.MateKeepsPermutation | src/geneticalgorithmtravelingsalesman/Main.java:422-463 | two permutation parents of equal length always produce a child that is a permutation of the same length |
| Breeding.MateMayMoveSiteZero | src/geneticalgorithmtravelingsalesman/Main.java:446-459 | a concrete mating of `[0,1,2]` and `[0,2,1]` yields `[1,0,2]`: the bred child need not start at site 0 |
| Selection.TotalWeightClosedForm | src/geneticalgorithmtravelingsalesman/Main.java:379-382 | the total weight is `length*(length+1)/2` |
| Selection.SumOfRanks | src/geneticalgorithmtravelingsalesman/Main.java:376-382 | the weight loop computes `TotalWeight(length)` |
| Selection.CumWeightClosedForm | src/geneticalgorithmtravelingsalesman/Main.java:388-393 | the weight the scan holds once it has added index `i`'s weight, `i + ... + (length-1)`, has closed form `(length-i)(length+i-1)/2` |
| Selection.FindParent | src/geneticalgorithmtravelingsalesman/Main.java:390-404 | a scan from index `i` downwards picks an index in `1..i-1` or none |
| Selection.FindParentChoosesByIndex | src/geneticalgorithmtravelingsalesman/Main.java:385-404 | as written, index `j` is chosen exactly for the `j` draws in its cumulative window; no index is chosen exactly when the draw is at least `TotalWeight(length) - length` |
| Selection.Picks | src/geneticalgorithmtravelingsalesman/Main.java:384-405 | when the draws suffice, two distinct indices in `1..length-1` are chosen, the first chosen first |
| Selection.RandomlyPickTwoParents | src/geneticalgorithmtravelingsalesman/Main.java:368-412 | a pool smaller than two is rejected; otherwise the result is the two pool members at the indices `Picks` chooses, or exhaustion when the draws never complete |
| Selection.PairPoolNeverCompletes | src/geneticalgorithmtravelingsalesman/Main.java:385-405 | with a pool of two, no sequence of draws ever yields two parents |
| Selection.SelectByRank | src/geneticalgorithmtravelingsalesman/Main.java:362-367 | the corrected selection scan chooses an index in `i..length-1` or none |
| Selection.SelectByRankWeights | src/geneticalgorithmtravelingsalesman/Main.java:362-367 | with corrected selection every draw below the total weight picks a rank, and rank `j` gets exactly `length-j` draws: `length` for the fittest and 1 for the least fit |
| Selection.PicksByRank | src/geneticalgorithmtravelingsalesman/Main.java:384-405 | corrected picking yields two distinct indices of the pool when it completes |
| Selection.PicksByRankCompletes | src/geneticalgorithmtravelingsalesman/Main.java:362-367 | with corrected selection even a pool of two can complete: the draws `[0, length]` choose indices 0 and 1 |
| SalesmanMaps.SquaredDistanceIsMetricLike | src/geneticalgorithmtravelingsalesman/SalesmanMap.java:173-176 | the squared distance is symmetric, non-negative and zero exactly for equal points |
| SalesmanMaps.ConvertByteToChar | src/geneticalgorithmtravelingsalesman/SalesmanMap.java:131-134 | the character code is `val + 97` reduced to 16 bits; ids 0..25 give the letters a..z |
| SalesmanMaps.ConvertByteToCharInjective | src/geneticalgorithmtravelingsalesman/SalesmanMap.java:131-134 | distinct byte ids give distinct characters, and id 0 gives `'a'` |
| SalesmanMaps.ToByte | src/geneticalgorithmtravelingsalesman/SalesmanMap.java:122-124 | the `(byte)` cast gives a value in `-128..127` congruent to the input modulo 256 |
| SalesmanMaps.ConvertIntToChar | src/geneticalgorithmtravelingsalesman/SalesmanMap.java:122-124 | an `int` already in byte range converts exactly as that byte does |
| SalesmanMaps.ConvertIntToCharLowByte | src/geneticalgorithmtravelingsalesman/SalesmanMap.java:122-124 | the `int` overload depends only on the low 8 bits: ints that differ by a multiple of 256 give the same character |
| SalesmanMaps.Placement | src/geneticalgorithmtravelingsalesman/SalesmanMap.java:52-74 | the retry loop places exactly `n` sites at distinct drawn points and skips draws that hit an occupied cell |
| SalesmanMaps.PlacementNeedsRoom | src/geneticalgorithmtravelingsalesman/SalesmanMap.java:52-74 | placement can only finish when the grid has at least `n` cells; with fewer, the loop never ends |
| SalesmanMaps.SalesmanMap.constructor | src/geneticalgorithmtravelingsalesman/SalesmanMap.java:28-37 | a fresh `height` by `width` grid with every cell empty (-1), no last site, and the salesman at `(0,0)` |
| SalesmanMaps.SalesmanMap.Generate | src/geneticalgorithmtravelingsalesman/SalesmanMap.java:46-82 | an empty dimension with sites to place is an error; otherwise the map holds exactly the placed sites, each id `i` at the `i`-th placed point, with last site `n-1` |
| SalesmanMaps.SalesmanMap.SalesmanOnFirstSite | src/geneticalgorithmtravelingsalesman/SalesmanMap.java:63-79 | on a map with at least one site, the salesman stands on site 0 |
| SalesmanMaps.SalesmanMap.GetLastSite | src/geneticalgorithmtravelingsalesman/SalesmanMap.java:180-182 | the last site id is one less than the number of sites on the map |
| SalesmanMaps.SalesmanMap.GetDistance | src/geneticalgorithmtravelingsalesman/SalesmanMap.java:140-178 | the grid search with early exit returns the square root of the squared Euclidean distance between the two sites' positions |
| SalesmanMaps.SalesmanMap.ToString | src/geneticalgorithmtravelingsalesman/SalesmanMap.java:89-115 | the rendering loop produces `Render`, the grid drawn row by row |
| SalesmanMaps.SalesmanMap.AppendRow | src/geneticalgorithmtravelingsalesman/SalesmanMap.java:93-110 | the inner loop appends exactly the cells of one row, in column order |
| SalesmanMaps.SalesmanMap.RenderLayout | src/geneticalgorithmtravelingsalesman/SalesmanMap.java:89-115 | the rendering has `width+1` characters per row, with the cell character at offset `r*(width+1)+c` and a newline at the end of each row |
| SalesmanMaps.SalesmanMap.RenderedCell | src/geneticalgorithmtravelingsalesman/SalesmanMap.java:94-108 | without the salesman, an empty cell renders as `.` and a site as its letter, code `id + 97` |
| Itineraries.GenerateRandomItinerary | src/geneticalgorithmtravelingsalesman/Main.java:557-574 | a negative `finish` fails at once with the illegal list capacity; otherwise the itinerary is site 0 followed by `1..finish` in shuffled order, a permutation of length `finish+1` |
| Itineraries.GeneratedIsPermutation | src/geneticalgorithmtravelingsalesman/Main.java:557-574 | for every shuffle the generated itinerary starts at 0 and visits each of `0..finish` exactly once |
| Itineraries.Contains | src/geneticalgorithmtravelingsalesman/Main.java:540-549 | the scan returns true exactly when the id occurs |
| Itineraries.ByteArrayToString | src/geneticalgorithmtravelingsalesman/Main.java:599-610 | the string has `2n-1` characters: letter `i` at position `2i`, separated by single spaces |
| Tours.TourLengthFront | src/geneticalgorithmtravelingsalesman/Main.java:585-589 | the tour length is the first leg plus the length of the rest, matching the front-to-back loop |
| Tours.TourLengthReversed | src/geneticalgorithmtravelingsalesman/Main.java:582-592 | under a symmetric distance, walking an itinerary backwards costs the same |
| Tours.SiteDistance | src/geneticalgorithmtravelingsalesman/SalesmanMap.java:140-178 | the distance between sites on a map is symmetric |
| Tours.GetTotalTravel | src/geneticalgorithmtravelingsalesman/Main.java:582-592 | the travel summed by the loop is the open tour length under the map's site distances |
| Tours.MapTourReversible | src/geneticalgorithmtravelingsalesman/Main.java:582-592 | on any map, an itinerary and its reverse have the same total travel |
| Evolution.Put | src/geneticalgorithmtravelingsalesman/Main.java:277-278 | recording a distance appends it to the list, and maps it to its itinerary, replacing any earlier itinerary with that distance while leaving other keys alone |
| Evolution.PutOverwrites | src/geneticalgorithmtravelingsalesman/Main.java:277-278 | recording a distance that is already present grows the list but not the map |
| Evolution.MapNoLargerThanList | src/geneticalgorithmtravelingsalesman/Main.java:267-268 | the distance-keyed map never has more entries than the distance list |
| Evolution.SortAscending | src/geneticalgorithmtravelingsalesman/Main.java:288 | sorting gives an ascending permutation of the distances |
| Evolution.SortedFirstIsMinimum | src/geneticalgorithmtravelingsalesman/Main.java:288-301 | the first sorted distance is the minimum of the population |
| Evolution.Seed | src/geneticalgorithmtravelingsalesman/Main.java:273-279 | the initial population records exactly one distance per initial itinerary |
| Evolution.InitialPopulation | src/geneticalgorithmtravelingsalesman/Main.java:273-279 | the first population loop builds exactly the population `Seed` describes |
| Evolution.Fittest | src/geneticalgorithmtravelingsalesman/Main.java:289-304 | a negative `numFittestToMate` is exactly the illegal list capacity; otherwise taking more fittest than there are distances is exactly the index error, and a pool that is taken has `numFittestToMate` members |
| Evolution.CollectFittest | src/geneticalgorithmtravelingsalesman/Main.java:288-304 | the loop fails or collects the fittest pool and the generation's best exactly as `Fittest` and `NewBest` define them, including the capacity error for a negative count |
| Evolution.Offspring | src/geneticalgorithmtravelingsalesman/Main.java:319-326 | refilling adds exactly one child per remaining slot after the existing entries, and fails on a pool below two when any slot is left |
| Evolution.Refill | src/geneticalgorithmtravelingsalesman/Main.java:306-326 | the next population is the elite entry (under elitism) followed by the bred children |
| Evolution.RunTestWithGeneticAlgorithm | src/geneticalgorithmtravelingsalesman/Main.java:265-330 | the genetic run returns the result of `Genetic`, the generation-by-generation definition |
| Evolution.GenerationShape | src/geneticalgorithmtravelingsalesman/Main.java:284-327 | each generation refills the population to its size; its best is the minimum distance of the previous population, or the old best when no fittest are taken; under elitism that best leads the new population |
| Evolution.SmallPoolFails | src/geneticalgorithmtravelingsalesman/Main.java:319-322 | a pool of zero or one fittest fails as soon as a child must be bred |
| Evolution.NegativeMateCountFails | src/geneticalgorithmtravelingsalesman/Main.java:282-289 | with a negative `numFittestToMate`, a run with at least one generation fails on the illegal list capacity |
| Evolution.ElitismNeverWorsens | src/geneticalgorithmtravelingsalesman/Main.java:312-317 | with elitism, the next generation's best distance is never worse than the current best |
| Evolution.NoGenerationsGivesSentinel | src/geneticalgorithmtravelingsalesman/Main.java:281-329 | with no generations the genetic run returns the sentinel -1 |
| Evolution.Sample | src/geneticalgorithmtravelingsalesman/Main.java:342-353 | the `j`-th distance sampled in a generation is the distance of that generation's `j`-th random itinerary |
| Evolution.RandomDistancesLength | src/geneticalgorithmtravelingsalesman/Main.java:339-353 | the random run samples `populationSize` itineraries in each generation, `populationSize * generations` in all |
| Evolution.RandomDistancesRecordsAll | src/geneticalgorithmtravelingsalesman/Main.java:339-353 | the distance of every itinerary sampled in every generation is recorded in the distance list |
| Evolution.RunningBestSnoc | src/geneticalgorithmtravelingsalesman/Main.java:346-349 | one more sample replaces the running best exactly when the best is still -1 or the new distance is smaller |
| Evolution.SampleGeneration | src/geneticalgorithmtravelingsalesman/Main.java:341-353 | one generation appends its samples, in order, to the distance list, keeps the map keyed by the listed distances, and leaves the best equal to the running best |
| Evolution.RunningBestIsMinimum | src/geneticalgorithmtravelingsalesman/Main.java:346-349 | the running best is the minimum of all sampled distances, or -1 when none was sampled |
| Evolution.RunTestWithRandom | src/geneticalgorithmtravelingsalesman/Main.java:332-360 | a negative population size fails allocating the list; otherwise the result is the running best over all sampled distances, with every sample recorded |

## Left out

- `main`, `printUsage` and the statistics and reporting code: these are argument parsing and output.
- `toString()` without arguments: it only delegates to `ToString(false)`.
- `getDistance(int, int)`: it only delegates through the byte cast that `ToByte` models.
- Printing: the per-generation log lines and the diagnostic printed before the null-pointer rethrow are not modelled.
- `java.util.Random`, `Collections.shuffle` and `Collections.sort`: random values arrive as parameters. Sorting is specified as an ascending permutation rather than as Java's merge sort.
- Floating point: `double`/`float` arithmetic and `Math.sqrt` are not modelled. Distances are `real`, the square root is a parameter, and the rate comparisons `nextFloat() < rate` arrive as booleans.
- `numFittestToMate`: the rounding `Math.round(populationSize * percentageMate)` is not modelled. The rounded count is a parameter.
- `Itineraries.GenerateRandomItinerary`: requires `finish <= 126`, because the Java byte loop `b <= finish` never ends at 127.
- `SalesmanMaps.SalesmanMap.Generate`: requires 0 to 127 sites. More than 127 sites would wrap the byte counter and never end. A negative count is also left out.
- `SalesmanMaps.SalesmanMap.Generate`: height and width are `nat`, so the `NegativeArraySizeException` that `new byte[height][width]` (SalesmanMap.java:31) throws for a negative dimension is not modelled. The same holds for the constructor.
- `ArrayIntegrity.CheckArrayForIntegrity`: limited to arrays of at most 127 entries. On 128 or more entries, the byte index of the scan at Main.java:486 wraps from 127 to -128. The loop test still holds, so `instanceCount[-128]` at Main.java:487 throws `ArrayIndexOutOfBoundsException`. Every pass that could end the repair scans every index, so the Java method never returns normally there. The bound is harmless: `SalesmanMap.generate` never finishes with more than 127 sites, so no itinerary has more than 127 entries.
- `ArrayIntegrity.RepairSucceedsIff`, `ArrayIntegrity.RepairRestoresPermutation`: these are stated about the repair function `Repair` for every length. They describe the Java method only for arrays of at most 127 entries, the bound `CheckArrayForIntegrity` carries.
- `Breeding.Mate`: limited to parents of at most 127 entries. Its repair throws `ArrayIndexOutOfBoundsException` on longer parents, as the `CheckArrayForIntegrity` line explains. No map yields such parents.
- `SalesmanMaps.SalesmanMap.GetDistance`: requires ids other than -1. Id -1 would match every empty cell, which the model does not follow.
- `Tours.GetTotalTravel`: requires ids other than -1, for the same reason.
- `Evolution.RunTestWithGeneticAlgorithm`: breeding is not modelled inside the run. Each child comes from the `offspring` parameter, and its length comes from the `distance` parameter. `Breeding.Mate` and `Selection.RandomlyPickTwoParents` model those steps separately. So the model returns for a mating pool of two, where the program's selection never finishes (see "## Findings").
- `Evolution.RunTestWithGeneticAlgorithm`: the initial itineraries are supplied, not generated. So the `IllegalArgumentException` of `generateRandomItinerary` on a map without sites (Main.java:559, reached from Main.java:275) is not modelled for this run.
- `Evolution.RunTestWithRandom`: the sampled itineraries are supplied by `randomItinerary`, which never fails. So the `IllegalArgumentException` of `generateRandomItinerary` on a map without sites (Main.java:559, reached from Main.java:343) is not modelled. On such a map the model returns a result where the program throws.
- `Selection.RandomlyPickTwoParents`: has no error for the check `parents.size() != 2`. The `Picks` contract shows that check can never fail.
- `Selection.SumOfRanks`: does not model 32-bit overflow of `totalWeight`. The model assumes a mating pool below about 65536 members, where the `int` sum stays in range. The population size is not validated, so a larger pool would overflow in Java.
- `Evolution.RunTestWithRandom`: returns its final population along with the best distance, so that the bookkeeping can be stated. Java discards the population.

## Findings

| source | as written | input that shows it | evidently intended | confidence | as-written member | corrected member |
|---|---|---|---|---|---|---|
| src/geneticalgorithmtravelingsalesman/Main.java:385-405 | the scan walks `i = length-1` down to 1 adding weight `i`: index `i` gets weight `i`, index 0 (the fittest) is never chosen, and draws of `TotalWeight(length) - length` or more choose nobody | a mating pool of size 2: only index 1 can ever be chosen, so the loop at line 385 never collects a second parent | rank weights `length` for the fittest down to 1 for the least fit, over every index, as the comment at lines 362-367 says | high; not executed | Selection.PairPoolNeverCompletes | Selection.SelectByRankWeights |

`Selection.FindParentChoosesByIndex` gives the as-written weights for every pool size.

`Selection.PicksByRankCompletes` shows that the corrected selection completes a pool of two.

`Selection.RandomlyPickTwoParents` keeps the code as written. The run loop takes its children from the `offspring` parameter, so neither selection feeds into it.
