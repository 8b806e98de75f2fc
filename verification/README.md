# Wind-turbine register and maintenance-route planner, modelled in Dafny

The modelled program reads a register of wind turbines ("Windkraftanlagen") from a CSV file. It validates and repairs the register's coordinates, years and power values, and produces statistics, rankings and sorted listings. It also plans maintenance tours for the facilities of the leading manufacturers. The tour planner runs in five steps:

1. Build an undirected proximity graph over the facilities that have coordinates.
2. Split the graph into clusters, which are its connected components.
3. Order each cluster by nearest neighbour, then shorten the order with open-path 2-opt.
4. Cut the route into work days of a fixed number of facilities, and add travel days for over-long legs between days.
5. Add the days up per cluster and per manufacturer.

The project models this pipeline as pure functions over sequences, with the imperative loops as methods. It also models the record-level logic around it:

- the quote-aware CSV reader, splitter and field cleaner;
- the text-to-field mapping;
- range validation and "missing decimal point" correction;
- the coordinate repair pass with its correction tracker;
- the null-safe comparators and the three stable bubble sorts;
- counting, ranking and top-N selection;
- the neighbour-based power estimate;
- the text formatters.

One module per source component:

| module | file | models |
|---|---|---|
| `Wrappers`, `Seqs` | wrappers.dfy, seqs.dfy | `Option`/`Result` (null and exceptions), sequence helpers |
| `Numbers`, `Text` | numbers.dfy, text.dfy | `Integer.parseInt`/`toString`, Java's `/`, `Math.ceil`, `String.trim`, `indexOf`, `replace`, joining |
| `Facilities`, `Settings` | facility.dfy, settings.dfy | the facility record, the planning constants |
| `Geo` | geo.dfy | the two distance functions over an abstract great-circle metric |
| `Csv`, `Fields` | csv.dfy, fields.dfy | `CsvParser`, `FeldParser`, `WindkraftanlageErsteller`, `erstelleAnlageAusZeile` |
| `Comparators`, `Sorting` | compare.dfy, sorting.dfy | `VergleichsHelfer`, `WindkraftanlagenSortierer` |
| `Statistics`, `Parks` | statistics.dfy, parks.dfy | `StatistikBerechner`, `WindparkAnalysierer` |
| `Validation`, `Correction` | validation.dfy, correction.dfy | `DatenfeldValidator`, `KoordinatenValidator`, `KoordinatenValidierer`, `DatenfeldKorrektor`, `KoordinatenKorrektor` |
| `Repository` | repository.dfy | `KoordinatenKorrekturTracker`, `WindkraftanlageRepository` |
| `ProximityGraph` | graph.dfy | `Graphknoten`, `WindkraftanlageGraph` |
| `ClusterDetector` | clusters.dfy | `WartungsClusterDetector` |
| `RouteOptimizer` | routes.dfy | `RoutenOptimierer` |
| `Schedule` | schedule.dfy | `WartungsZeitBerechner` |
| `Manufacturers` | manufacturers.dfy | `HerstellerExtraktor`, `HerstellerGruppierer` |
| `MaintenancePlanner` | planner.dfy | `WartungsRoutenPlaner` |
| `PowerEstimator` | estimator.dfy | `LeistungsSchaetzer` |
| `Formatting` | formatting.dfy | `AusgabeFormatter`, `WindkraftanlageFormatter`, `formatiereTagesAnlagen` |

How the Java constructs are represented:

- A Java `null` field is an `Option`, and an exception is a `Result` failure or a `None`.
- A `HashMap` is an association list in first-insertion order.
- Mutable lists are sequences, and object identity is replaced by indices.
- The haversine distance is a function parameter `m`. `Geo.IsDistance` constrains it to be non-negative and symmetric, and to stay below `Float.MAX_VALUE`. The source's formula has all three properties.
- Several constants are used but not declared in `Konstanten`: facilities per day, transport budget, speed, work hours and the cluster threshold. They are the fields of `Settings.Config`. `Settings.Documented` holds the values the comment at `WartungsZeitBerechner.java:33-34` gives: 4 per day, 120 km, 60 km/h, 8 hours. The cluster threshold `WARTUNG_GRAPH_MAX_DISTANZ_KM` is set to the same 120 km, because the cluster detector calls it the maintenance transport limit (`WartungsClusterDetector.java:145` and `:158`).
- Two callers name CSV helpers that `CsvParser` does not declare under those names. `WindkraftanlageRepository.java:105` calls `teileZeileInFelder`, modelled as `Csv.Split` (`splitCsvLineRespectingQuotes`). `WindkraftanlageRepository.java:116-131` and `WindkraftanlageErsteller.java:35-48` call `bereinigesFeld`, modelled as `Csv.CleanField` (`cleanField`).

## Model

| member | source | states |
|---|---|---|
| Geo.GraphDistance | src/util/WindkraftanlageGraph.java:139-150 | the graph's distance is the metric between the two positions, a missing coordinate read as 0; it is non-negative and below `Float.MAX_VALUE` |
| Geo.RouteDistance | src/util/RoutenOptimierer.java:280-291 | the route distance is `Float.MAX_VALUE` exactly when one of the two facilities lacks a coordinate, and a real distance below it otherwise |
| Geo.RouteDistanceSymmetric | src/util/DistanzBerechner.java:47-52 | the distance from a to b equals the distance from b to a |
| Geo.RouteDistanceOnNodes | src/util/RoutenOptimierer.java:280-291 | for located facilities the route distance and the graph distance agree |
| ProximityGraph.AddNeighbour | src/model/Graphknoten.java:74-81 | adding a neighbour appends it only when absent: the facility is kept, earlier neighbours keep their order, the set of neighbours gains exactly `k`, and a duplicate-free list stays duplicate-free |
| ProximityGraph.AddNeighbourIdempotent | src/model/Graphknoten.java:78-80 | adding the same neighbour a second time changes nothing |
| ProximityGraph.ScanPair | src/util/WindkraftanlageGraph.java:114-124 | one pair step links both nodes to each other when they are within the threshold and leaves every node unchanged otherwise; no other node is touched |
| ProximityGraph.AddEdgesCorrect | src/util/WindkraftanlageGraph.java:107-127 | after the double loop over pairs every node's neighbour list is exactly its close nodes in ascending order |
| ProximityGraph.NewGraph | src/util/WindkraftanlageGraph.java:37-43 | the constructor fails exactly for a threshold that is not positive, and otherwise starts with no nodes |
| ProximityGraph.Build | src/util/WindkraftanlageGraph.java:55-98 | the nodes carry exactly the facilities with both coordinates, in input order, and the threshold is kept |
| ProximityGraph.BuildIsProximityGraph | src/util/WindkraftanlageGraph.java:55-127 | the built graph's adjacency is the proximity relation of its facilities |
| ProximityGraph.ProximityGraphShape | src/util/WindkraftanlageGraph.java:107-127 | `b` is a neighbour of `a` exactly when `a != b` and they are within the threshold; the relation is symmetric, has no loops, refers only to existing nodes and lists neighbours in ascending order |
| ProximityGraph.EdgeCountIsClosePairs | src/util/WindkraftanlageGraph.java:185-195 | the halved degree sum equals the number of unordered pairs of distinct nodes within the threshold |
| ClusterDetector.UnvisitedOf | src/util/WartungsClusterDetector.java:110-120 | the neighbours pushed are exactly the neighbours not yet visited |
| ClusterDetector.ExploreFromStart | src/util/WartungsClusterDetector.java:85-122 | the explicit-stack search from an unvisited node collects, without repetition, exactly the nodes reachable from it, starting with it, and marks exactly those |
| ClusterDetector.ClustersFromCorrect | src/util/WartungsClusterDetector.java:55-70 | the outer loop from node `i` yields the components of the nodes not yet visited, each listed from its smallest node, in ascending order of that node |
| ClusterDetector.ClustersArePartition | src/util/WartungsClusterDetector.java:40-72 | on an undirected graph every node lies in exactly one cluster, each cluster is a connected component listed from its smallest node, and clusters are ordered by that node |
| ClusterDetector.IsolatedIffDisconnected | src/util/WartungsClusterDetector.java:175-177 | there is more than one cluster exactly when some node cannot reach another |
| ClusterDetector.ClustersPartitionFacilities | src/util/WartungsClusterDetector.java:153-164 | the clusters, put end to end, are a permutation of the located facilities, and no cluster is empty |
| ClusterDetector.ClusterDistance | src/util/WartungsClusterDetector.java:189-213 | the result is at most every cross-pair distance and is one of them, or the sentinel (always so when a cluster is empty) |
| RouteOptimizer.RouteLength | src/util/RoutenOptimierer.java:256-268 | the total of a route is never negative |
| RouteOptimizer.RouteLengthAppend | src/util/RoutenOptimierer.java:256-268 | the total of two joined routes is both totals plus the connecting leg |
| RouteOptimizer.RouteLengthReverse | src/util/RoutenOptimierer.java:256-268 | a reversed route has the same total, because the distance is symmetric |
| RouteOptimizer.NearestCorrect | src/util/RoutenOptimierer.java:84-106 | the next stop is -1 when every unvisited facility is at the sentinel distance, otherwise an unvisited facility at the smallest distance with the lowest index among ties |
| RouteOptimizer.NearestFindsLocated | src/util/RoutenOptimierer.java:84-106 | when every facility is located and one is unvisited, a next stop is found |
| RouteOptimizer.NearestOrderCorrect | src/util/RoutenOptimierer.java:70-110 | the visiting order starts at index 0, repeats no index, makes a nearest choice at every step, stops early only when all remaining facilities are at the sentinel distance, and visits all facilities when all are located |
| RouteOptimizer.NearestNeighbourRoute | src/util/RoutenOptimierer.java:70-110 | the route starts with the first facility, contains only input facilities, and is a permutation of the input when all are located |
| RouteOptimizer.SwapAt | src/util/RoutenOptimierer.java:226-245 | the swap reverses the stops `i+1..j` and leaves all other stops in place |
| RouteOptimizer.SwapInvolution | src/util/RoutenOptimierer.java:226-245 | swapping the same segment twice restores the route |
| RouteOptimizer.SwapPermutes | src/util/RoutenOptimierer.java:226-245 | a swap is a permutation that keeps the first stop |
| RouteOptimizer.SwapLength | src/util/RoutenOptimierer.java:170-213 | the new total is the old total minus the open-path edge cost before the move plus the cost after it, so every accepted move shortens the route by their difference |
| RouteOptimizer.PassCorrect | src/util/RoutenOptimierer.java:138-152 | one pass over all pairs keeps the stops and the first stop, never lengthens the route, shortens it whenever it swaps, and reports whether it swapped |
| RouteOptimizer.OptimalIsFixpoint | src/util/RoutenOptimierer.java:138-152 | a pass over a route that no move can shorten leaves it and the flag unchanged |
| RouteOptimizer.ImproveCorrect | src/util/RoutenOptimierer.java:134-153 | the improvement loop yields a permutation with the same first stop that is unchanged or strictly shorter, and when it stops on a pass without swaps no 2-opt move can shorten it |
| RouteOptimizer.TwoOptCorrect | src/util/RoutenOptimierer.java:122-156 | a route of fewer than four stops is returned as it is; otherwise the result is a permutation with the same first stop, and is unchanged or strictly shorter |
| RouteOptimizer.TwoOptConverged | src/util/RoutenOptimierer.java:134-153 | a converged result admits no improving move, and running 2-opt on it again changes nothing |
| RouteOptimizer.OptimizedRouteCorrect | src/util/RoutenOptimierer.java:40-58 | the optimised route is empty exactly for an empty input, starts at the first facility, uses only input facilities, and is a permutation of them when all are located |
| Schedule.WorkDaysIsCeiling | src/util/WartungsZeitBerechner.java:42-51 | the work days are the least number of full days that hold the route, and zero exactly for an empty route |
| Schedule.ChunksSpec | src/util/WartungsZeitBerechner.java:73-86 | the daily chunks concatenate back to the route, and every chunk but the last is full |
| Schedule.ChunksCount | src/util/WartungsZeitBerechner.java:73-86 | there is one chunk per started block of `perDay` facilities |
| Schedule.DayPlan | src/util/WartungsZeitBerechner.java:63-89 | the days of the plan concatenate to the route's ids in order; each day holds between 1 and `perDay` ids, and only the last may hold fewer |
| Schedule.DayPlanMatchesWorkDays | src/util/WartungsZeitBerechner.java:63-89 | the plan has as many days as the work-day count, and facility `k` is serviced on day `k / perDay` at place `k % perDay` |
| Schedule.TransportWarningsCorrect | src/util/WartungsZeitBerechner.java:100-122 | every warning names a leg over the budget, every such leg is warned about, and there are no warnings exactly when every leg is within the budget |
| Schedule.LegDays | src/util/WartungsZeitBerechner.java:152-160 | a leg costs extra days exactly when it exceeds the budget, and then the least whole number of work days covering the excess driving time |
| Schedule.ShortRouteNoExtraDays | src/util/WartungsZeitBerechner.java:134-145 | a route of at most `perDay` facilities has no extra travel days |
| Schedule.ExtraTravelDaysAtBoundaries | src/util/WartungsZeitBerechner.java:134-165 | the extra travel days are exactly the leg costs of the transitions between consecutive days of the plan |
| Schedule.NoWarningsNoExtraDays | src/util/WartungsZeitBerechner.java:134-165 | a route without transport warnings needs no extra travel day |
| Schedule.TotalDays | src/util/WartungsZeitBerechner.java:176-181 | the total is at least the work days, and equal to them when no leg exceeds the budget |
| Formatting.DayLine | src/util/WartungsZeitBerechner.java:192-208 | the day line is empty exactly for no ids, and otherwise is the prefixed ids joined by the separator |
| Formatting.DayLineLayout | src/util/WartungsZeitBerechner.java:192-208 | the text of id `k` stands at its offset and is followed by the separator unless it is the last |
| MaintenancePlanner.MinOtherFromCorrect | src/util/WartungsRoutenPlaner.java:137-153 | the minimum over the other clusters is at most the distance to every other cluster and is one of them, or the sentinel |
| MaintenancePlanner.IsolationWarningCorrect | src/util/WartungsRoutenPlaner.java:135-160 | a cluster is warned about exactly when every facility of it is farther than the transport budget from every facility of every other cluster |
| MaintenancePlanner.PlanClusterCorrect | src/util/WartungsRoutenPlaner.java:81-123 | each cluster's route is a permutation of the cluster that starts at its first facility, its day plan lists the route's ids, its days are at least its work days, and an isolation warning needs more than one cluster |
| MaintenancePlanner.PlanGroupCorrect | src/util/WartungsRoutenPlaner.java:40-68 | every located facility is routed in exactly one cluster; the total is the sum of the cluster days, is zero exactly when no facility is located, and is at least the work days of all located facilities and the number of clusters |
| MaintenancePlanner.PlanNamed | src/util/WartungsRoutenPlaner.java:221-233 | each chosen name is paired with the planned days of its group |
| MaintenancePlanner.TopPlansCorrect | src/util/WartungsRoutenPlaner.java:216-233 | the planned names are distinct manufacturers with located facilities, each with the days of its own facilities, and none left out has more located facilities than one listed |
| MaintenancePlanner.PlanTopManufacturers | src/util/WartungsRoutenPlaner.java:190-240 | nothing for an empty register; otherwise `min(n, manufacturers)` distinct manufacturers, each with the planned days of its facilities, none left out having more located facilities than one chosen |
| Manufacturers.ManufacturerOf | src/util/HerstellerExtraktor.java:61-89 | the manufacturer is the placeholder for a missing or blank type, and otherwise the first space-delimited word of the trimmed type |
| Manufacturers.ManufacturerHasNoSpace | src/util/HerstellerExtraktor.java:61-89 | a manufacturer name other than the placeholder is non-empty, contains no space and does not start with white space |
| Manufacturers.GroupByManufacturerCorrect | src/util/HerstellerGruppierer.java:40-66 | the grouping has one key per manufacturer of a located facility, each mapped to exactly its located facilities in input order |
| Manufacturers.GroupOfIsMembers | src/util/WartungsRoutenPlaner.java:223 | looking a name up in the grouping gives exactly that manufacturer's located facilities, and nothing for an absent name |
| Manufacturers.CountMatchesGroups | src/util/HerstellerGruppierer.java:77-97 | the counts are the sizes of the groups, key by key and in the same order |
| Manufacturers.CountByManufacturerCorrect | src/util/HerstellerGruppierer.java:77-97 | the counts have distinct keys, exactly the manufacturers with a located facility, each with its number of located facilities |
| Manufacturers.SortByCountDescending | src/util/HerstellerGruppierer.java:122-138 | the exchange sort returns a permutation of the entries ordered by non-increasing count |
| Manufacturers.TopManufacturers | src/util/HerstellerGruppierer.java:111-149 | the result is the first `min(n, entries)` names of a descending permutation of the counts, and none for a non-positive `n` |
| Manufacturers.RankingCorrect | src/util/HerstellerGruppierer.java:113-147 | a descending ranking names each manufacturer once with its count, and its first `k` names beat every manufacturer left out |
| Parks.ParkName | src/util/WindparkAnalysierer.java:50-55 | a facility without a name is counted under the placeholder key, and any other under its name |
| Parks.CountParksCorrect | src/util/WindparkAnalysierer.java:46-68 | the park counts have distinct keys, exactly the occurring names, each with its number of facilities |
| Parks.CountParksTotal | src/util/WindparkAnalysierer.java:49-65 | the counts add up to the number of facilities |
| Parks.TalliesPermuted | src/util/WindparkAnalysierer.java:80-106 | any reordering of the counts, such as the sorted list, still counts the same facilities |
| Parks.TopParks | src/util/WindparkAnalysierer.java:118-134 | the top list has `min(n, parks)` entries (none for a non-positive `n`), by non-increasing count, with distinct parks and their true counts, and no park left out has more facilities than one listed |
| Statistics.CountLocated | src/util/StatistikBerechner.java:41-54 | the count is the number of facilities with both coordinates, at most the list length, and equal to it exactly when all are located |
| Statistics.CountWithoutOperator | src/util/StatistikBerechner.java:66-76 | the count is the number of facilities without an operator, and zero exactly when every facility names one |
| Statistics.TotalCount | src/util/StatistikBerechner.java:88-99 | the total sums the present counts with a missing one as 0; it is 0 when no count is present, and non-negative when no count is negative |
| PowerEstimator.SameOrBothMissingIsEquality | src/util/LeistungsSchaetzer.java:143-156 | the type test is equality of optional values, and therefore symmetric |
| PowerEstimator.EstimateNone | src/util/LeistungsSchaetzer.java:78-103 | there is no estimate exactly when no neighbour has a power and the same type |
| PowerEstimator.SumSuitableIsSum | src/util/LeistungsSchaetzer.java:78-103 | the loop accumulates exactly the sum and the number of the suitable neighbours' powers |
| PowerEstimator.EstimateWithin | src/util/LeistungsSchaetzer.java:78-103 | the estimate is a mean: it lies within any bounds that hold for every suitable neighbour's power |
| PowerEstimator.FillStep | src/util/LeistungsSchaetzer.java:49-61 | one iteration touches only node `i`: a known power is kept, a missing one becomes the estimate on the current nodes (staying missing when there is none), and it counts 1 exactly when the node changed |
| PowerEstimator.FillFromCorrect | src/util/LeistungsSchaetzer.java:48-62 | the loop from node `i` on keeps the filling invariant to the end: nodes only gain a missing power, and every node that lacked one carries the estimate computed on the nodes as it saw them in its turn, with earlier nodes already filled |
| PowerEstimator.FillMissingCorrect | src/util/LeistungsSchaetzer.java:39-65 | only nodes with a missing power change, and only by receiving a power; known powers are untouched; each node that lacked a power receives the estimate on the nodes as it saw them in its turn, so it is filled whenever that estimate exists and an earlier fill counts for a later node; the result is the number of nodes filled |
| PowerEstimator.FillMissingWithin | src/util/LeistungsSchaetzer.java:39-65 | when every known power lies in `[lo, hi]`, every power after the fill does too, because each filled value is a mean of powers already in range |
| PowerEstimator.FillSeesEarlierFills | src/util/LeistungsSchaetzer.java:48-61 | on three nodes where node 1's only neighbour is node 0, which lacks a power at the start, node 1 has no estimate on the original nodes yet receives 2.0 once node 0 has been filled from node 2, and two values are filled |
| Csv.AfterBreak | src/util/CsvParser.java:98-107 | a line break is consumed as one character, or as two exactly for CR followed by LF |
| Csv.ReadRecord | src/util/CsvParser.java:33-59 | there is no record exactly when the input is exhausted; otherwise reading advances and the record is no longer than the characters read |
| Csv.PlainRecord | src/util/CsvParser.java:39-58 | a record without quotes ends at the first line break, which it does not contain, and reading resumes after that break |
| Csv.QuotedRecordRoundTrip | src/util/CsvParser.java:72-85 | with the corrected quote rule, any value written as a quoted record (quotes doubled, line breaks kept) is read back as itself and reading resumes after the record's line feed |
| Csv.QuotedRecordBreaksAsWritten | src/util/CsvParser.java:72-85 | with the rule as written, the quoted record of `a"b` runs past its line feed, while the corrected rule ends it there |
| Csv.ScanAsWrittenExample | src/util/CsvParser.java:72-85 | with the quote rule as written, the scan of `"a""b"` followed by LF and `z` returns the text `a"b`, LF, `z` and stops at the end, position 8 |
| Csv.Split | src/util/CsvParser.java:119-146 | a split always yields at least one field |
| Csv.SplitPlain | src/util/CsvParser.java:125-145 | for a line without quotes the fields contain no comma, joining them with commas gives the line back, and there is one more field than commas |
| Csv.SplitRoundTrip | src/util/CsvParser.java:119-161 | fields written quoted, with quotes doubled, and separated by commas are split back into the same fields |
| Csv.UnescapeDouble | src/util/CsvParser.java:183 | undoubling the quotes of a doubled value gives the value back |
| Csv.CleanField | src/util/CsvParser.java:173-199 | a missing field stays missing; otherwise the result is the trimmed text, unless that is enclosed in quotes, and never longer than it |
| Csv.CleanFieldRoundTrip | src/util/CsvParser.java:173-199 | a value written as a quoted field, with any surrounding white space, is cleaned back to itself |
| Fields.BlankToNone | src/util/FeldParser.java:22-33 | missing or blank text becomes missing, and other text is trimmed, non-empty and has no white space at either end |
| Fields.BlankToNoneIdempotent | src/util/FeldParser.java:22-33 | applying the conversion twice equals applying it once |
| Fields.CleanNumberText | src/util/FeldParser.java:97-111 | the cleaned text is missing exactly when the text is blank; otherwise it is the trimmed text with each comma replaced by a point, so it contains no comma |
| Fields.ParseIntOrNone | src/util/FeldParser.java:42-53 | an integer is produced only from present, non-blank text and lies in the 32-bit range |
| Fields.ParseIntOrMinusOne | src/util/FeldParser.java:62-68 | the safe parse gives -1 when the nullable parse fails, and otherwise the same value |
| Fields.ParseIntRoundTrip | src/util/FeldParser.java:42-68 | any 32-bit integer written with surrounding white space is parsed back by both parsers |
| Fields.MinusOneIsAmbiguous | src/util/FeldParser.java:62-68 | the safe parse cannot tell the text "-1" from text that is no number |
| Fields.ParseRealOrNone | src/util/FeldParser.java:77-88 | blank text gives nothing, and other text is the float parser applied to the cleaned text |
| Fields.ForDisplay | src/util/FeldParser.java:123-128 | a missing value is shown as "unbekannt", and a present one as itself |
| Fields.FromFields | src/util/WindkraftanlageErsteller.java:26-59 | fewer than twelve fields give nothing; otherwise there is a facility unless the year parser throws, and each attribute comes from its column by position, cleaned and parsed as the column requires |
| Fields.FromFieldsIgnoresExtra | src/util/WindkraftanlageErsteller.java:32-49 | columns after the twelfth do not affect the facility |
| Fields.FromLine | src/controler/WindkraftanlageRepository.java:99-141 | a line that splits into fewer than twelve fields gives no facility |
| Fields.FromLineTooFewColumns | src/controler/WindkraftanlageRepository.java:99-141 | a line without quotes and with fewer than eleven commas gives no facility |
| Numbers.ParseInt | src/util/FeldParser.java:49 | a parsed integer is in the 32-bit range and comes from text starting with a sign or a digit |
| Numbers.IntToStringRoundTrip | src/util/FeldParser.java:49 | parsing the decimal text of any 32-bit integer gives it back |
| Numbers.JavaDiv | src/util/KoordinatenKorrektor.java:177-197 | Java's integer division: the remainder has the dividend's sign, or is zero, and is smaller in magnitude than the divisor |
| Numbers.Ceil | src/util/WartungsZeitBerechner.java:158 | the result is the least integer not below the argument |
| Text.Trim | src/util/FeldParser.java:27 | trimming removes only strippable characters from the two ends and leaves none at either end |
| Text.TrimIdempotent | src/util/FeldParser.java:27 | trimming twice equals trimming once |
| Text.IndexOf | src/util/HerstellerExtraktor.java:73 | the result is the first position of the character, or -1 exactly when it does not occur |
| Text.ReplaceChar | src/util/FeldParser.java:108 | replacing keeps the length and changes exactly the occurrences of the character |
| Comparators.Sign | src/util/VergleichsHelfer.java:49-50 | the sign is -1, 0 or 1 and has the sign of its argument |
| Comparators.NullsLast | src/util/VergleichsHelfer.java:37-47 | two missing values are equal, a missing value sorts after a present one, and two present values are compared by the given comparator |
| Comparators.CompareText | src/util/VergleichsHelfer.java:35-51 | the result is in {-1, 0, 1}, missing texts sort last, and present texts get the sign of the text comparison |
| Comparators.CompareInt | src/util/VergleichsHelfer.java:64-85 | the result is in {-1, 0, 1}, missing values sort last, and present values are compared ascending |
| Comparators.CompareRealDescending | src/util/VergleichsHelfer.java:98-119 | the result is in {-1, 0, 1}, missing values sort last, and present values are compared descending |
| Comparators.ComparePlain | src/util/VergleichsHelfer.java:131-140 | the result is in {-1, 0, 1} and agrees with `<` |
| Comparators.Antisymmetric | src/util/VergleichsHelfer.java:35-140 | swapping the arguments of each comparator negates its result |
| Comparators.CompareTextOrder | src/util/VergleichsHelfer.java:35-51 | the null-safe text comparator is a consistent order whenever the text comparison is |
| Comparators.NumericOrders | src/util/VergleichsHelfer.java:64-140 | the three numeric comparators are consistent orders |
| Comparators.ThenOrder | src/util/WindkraftanlagenSortierer.java:187-197 | breaking the ties of one order by another gives an order |
| Comparators.ByKey | src/util/WindkraftanlagenSortierer.java:187-243 | comparing facilities through one attribute by an order on that attribute orders the facilities |
| Sorting.PassStep | src/util/WindkraftanlagenSortierer.java:107-113 | one comparison exchanges the neighbours exactly when the first sorts after the second, and keeps the larger of the two at the right |
| Sorting.SwapTracks | src/util/WindkraftanlagenSortierer.java:109-113 | exchanging two neighbours that are out of order keeps the list a stable rearrangement of the input |
| Sorting.Pass | src/util/WindkraftanlagenSortierer.java:104-117 | a pass moves the largest element of the unsorted prefix to its end, and a pass without swaps leaves the list unchanged and shows it sorted |
| Sorting.BubbleSort | src/util/WindkraftanlagenSortierer.java:102-119 | the result is a permutation of the input with its neighbours in order, and equal elements keep their input order |
| Sorting.ComparePlaceNameId | src/util/WindkraftanlagenSortierer.java:187-197 | the place-name-id comparison returns -1, 0 or 1 |
| Sorting.ComparePowerYearName | src/util/WindkraftanlagenSortierer.java:209-220 | the power-year-name comparison returns -1, 0 or 1 |
| Sorting.CompareDistrictPlaceName | src/util/WindkraftanlagenSortierer.java:232-243 | the district-place-name comparison returns -1, 0 or 1 |
| Sorting.Lexicographic | src/util/WindkraftanlagenSortierer.java:187-243 | three orders combined lexicographically give an order |
| Sorting.PlaceNameIdOrder | src/util/WindkraftanlagenSortierer.java:187-197 | the comparison by place, then name, then id is a consistent order |
| Sorting.PowerYearNameOrder | src/util/WindkraftanlagenSortierer.java:209-220 | the comparison by power descending, then year, then name is a consistent order |
| Sorting.DistrictPlaceNameOrder | src/util/WindkraftanlagenSortierer.java:232-243 | the comparison by district, then place, then name is a consistent order |
| Sorting.SortByPlaceNameId | src/util/WindkraftanlagenSortierer.java:38-42 | the sorted copy is a permutation ordered by place, name and id, with ties kept in input order |
| Sorting.SortByPowerYearName | src/util/WindkraftanlagenSortierer.java:54-58 | the sorted copy is a permutation ordered by power descending, year and name, with ties kept in input order |
| Sorting.SortByDistrictPlaceName | src/util/WindkraftanlagenSortierer.java:70-74 | the sorted copy is a permutation ordered by district, place and name, with ties kept in input order |
| Correction.CorrectValue | src/util/KoordinatenKorrektor.java:111-125 | an in-range value is kept; otherwise the value divided by the factor if that is in range, else nothing; so a result is always in range |
| Correction.CorrectValueIdempotent | src/util/KoordinatenKorrektor.java:111-125 | a corrected value is corrected to itself |
| Correction.CorrectPower | src/util/KoordinatenKorrektor.java:248-264 | the power result is in range, an in-range power is kept, and any other result is the power divided by 100 |
| Correction.CorrectYear | src/util/KoordinatenKorrektor.java:177-197 | an in-range year is kept; otherwise the year divided by 10 (truncating) if in range, then the year times 10 if in range, else nothing |
| Correction.CorrectYearExamples | src/util/KoordinatenKorrektor.java:177-197 | 20150 becomes 2015, 201 becomes 2010, 2015 stays, and 5 cannot be corrected |
| Correction.DivideIfValid | src/util/DatenfeldKorrektor.java:30-41 | a missing or zero coordinate gives nothing; otherwise the value divided by 1000 if that is in range, else nothing |
| Correction.DivideDropsValidLatitude | src/util/DatenfeldKorrektor.java:30-41 | a latitude already in range is not kept by the field corrector but dropped, because it is only divided |
| Correction.FixYearField | src/util/DatenfeldKorrektor.java:96-118 | a missing or in-range year gives nothing; a year above the range is only divided and one below only multiplied, kept when the result is in range |
| Correction.FixPowerField | src/util/DatenfeldKorrektor.java:141-155 | a missing or zero power, or one not above the maximum, gives nothing; a power above it is divided by 100 and kept when in range |
| Correction.FixCoordinate | src/util/KoordinatenKorrektor.java:46-96 | a missing or in-range coordinate is kept, and any other is corrected by division or dropped |
| Correction.FixFacilityCoordinates | src/util/KoordinatenKorrektor.java:46-96 | only the coordinates change, both are valid afterwards, and a facility with no out-of-range coordinate is untouched |
| Correction.FixFacilityYear | src/util/KoordinatenKorrektor.java:149-166 | only the year changes, it is valid afterwards, and only an out-of-range year is replaced, by its correction |
| Correction.FixFacilityPower | src/util/KoordinatenKorrektor.java:219-237 | only the power changes, it is valid afterwards, and only an out-of-range power is replaced, by its correction |
| Correction.FixEach | src/util/KoordinatenKorrektor.java:149-166 | the shared loop replaces each facility by its fixed form and counts the facilities the pass touches |
| Correction.FixCoordinates | src/util/KoordinatenKorrektor.java:43-97 | afterwards every present coordinate is in range, in-range records are untouched, and the count is the number of records with an out-of-range coordinate |
| Correction.FixYears | src/util/KoordinatenKorrektor.java:149-166 | only out-of-range years change, no faulty year remains, and the count is the number of faulty years before the pass |
| Correction.FixPowers | src/util/KoordinatenKorrektor.java:219-237 | only out-of-range powers change, no faulty power remains, and the count is the number of faulty powers before the pass |
| Correction.FixedCoordinatesFaults | src/util/KoordinatenValidator.java:41-46 | after the coordinate pass the only faulty records left are those with exactly one coordinate missing |
| Validation.ValidatorPair | src/util/DatenfeldValidator.java:30-152 | a missing value is valid and not faulty, a value is faulty exactly when present and not valid, and every value is exactly one of the two |
| Validation.CoordinatesValid | src/util/KoordinatenValidator.java:62-80 | two missing coordinates are valid, exactly one missing is invalid, and two present ones must both be in range |
| Validation.FaultyCoordinates | src/util/KoordinatenValidator.java:41-46 | the faulty records are exactly those with one coordinate missing or a coordinate out of range |
| Validation.CountFaultyCoordinates | src/util/KoordinatenValidator.java:91-93 | the count is the number of faulty records, at most the list length |
| Validation.FaultyYears | src/util/KoordinatenValidator.java:112-117 | the selected records are exactly those with a present year outside 1980-2026 |
| Validation.FaultyPowers | src/util/KoordinatenValidator.java:155-160 | the selected records are exactly those with a present power outside 0-200 |
| Repository.NewTracker | src/util/KoordinatenKorrekturTracker.java:29-31 | a new tracker holds no corrections |
| Repository.Count | src/util/KoordinatenKorrekturTracker.java:67-69 | the count is the number of recorded entries |
| Repository.Record | src/util/KoordinatenKorrekturTracker.java:45-57 | recording appends exactly one entry with the facility's id and name and the given coordinates, and keeps the earlier entries |
| Repository.Printed | src/util/KoordinatenKorrekturTracker.java:92-112 | nothing is printed for an empty tracker; otherwise the first `min(limit, count)` entries in insertion order, a negative limit counting as 0 |
| Repository.SetDefaultLimit | src/util/KoordinatenKorrekturTracker.java:122-127 | a negative limit leaves the default unchanged, and any other replaces it |
| Repository.DefaultLimitStaysNatural | src/util/KoordinatenKorrekturTracker.java:122-127 | whatever limits are set, the default never becomes negative |
| Repository.RepairSpec | src/controler/WindkraftanlageRepository.java:173-211 | the repair changes only the coordinates; a valid coordinate is kept and an invalid one becomes its field correction or nothing; both are valid afterwards; and the record counts as corrected exactly when some correction succeeded |
| Repository.EntriesCount | src/controler/WindkraftanlageRepository.java:206-211 | one tracker entry is made per record with a successful correction |
| Repository.GetAll | src/controler/WindkraftanlageRepository.java:148-150 | the copy holds the loaded facilities in order |
| Repository.Size | src/controler/WindkraftanlageRepository.java:157-159 | the count equals the length of the copy |
| Repository.RepairStep | src/controler/WindkraftanlageRepository.java:173-211 | one iteration repairs the next record and adds its tracker entry and count exactly when a correction succeeded |
| Repository.CorrectCoordinates | src/controler/WindkraftanlageRepository.java:170-215 | every record is repaired in place and has only valid coordinates afterwards; the tracker gains one entry with old and new coordinates per corrected record; the result is the number of corrected records |
| Formatting.Heading | src/util/AusgabeFormatter.java:19-27 | the heading is a rule of '=' as wide as the title but at least 40, a line break, the title, a line break and the same rule |
| Formatting.KeyValue | src/util/AusgabeFormatter.java:36-39 | the text is the key, ": " and the value, or "unbekannt" for a missing value |
| Formatting.AppendAll | src/util/AusgabeFormatter.java:52-57 | the builder loop produces the parts joined by the separator |
| Formatting.TableRow | src/util/AusgabeFormatter.java:48-58 | no columns give ""; otherwise the columns' texts, missing ones as "unbekannt", joined by ", " |
| Formatting.TableRowLayout | src/util/AusgabeFormatter.java:52-57 | column `k` stands at its offset, followed by ", " unless it is the last, and nothing follows the last |
| Formatting.Quoted | src/util/WindkraftanlageFormatter.java:48-52 | a quoted field is the raw value between single quotes, "null" for a missing value |
| Formatting.FormattedInt | src/util/WindkraftanlageFormatter.java:54-58 | a missing integer shows as "unbekannt", and a present one as its decimal text |
| Formatting.FormattedReal | src/util/WindkraftanlageFormatter.java:54-58 | a missing real shows as "unbekannt", and a present one as its float text |
| Formatting.FormatFrame | src/util/WindkraftanlageFormatter.java:22-41 | the text starts with "Windkraftanlage{" and ends with the field separator and "}" |
| Formatting.FormatField | src/util/WindkraftanlageFormatter.java:22-58 | field `k` stands at its offset as the `k`-th name, "=", its rendered value and ", ", the twelve names in fixed order |
| Settings.DocumentedValid | src/util/WartungsZeitBerechner.java:33-34 | the documented constants (4 facilities a day, 120 km at 60 km/h, 8-hour days) meet every requirement the planner places on them, and the graph threshold equals the transport budget |
| Facilities.WithCoordinates | src/util/WindkraftanlageGraph.java:75-98 | the selection holds exactly the facilities with both coordinates |

## Left out

- File reading (`ladeAusCsv`), console output (`AusgabeManager` and the printing in the planner, tracker and formatters), and timing and statistics recording (`ZeitMessung`, `ZeitStatistiken`). The reader is a character sequence with a position, and printed lines are returned as values.
- Floating point. Distances, sums, means and divisions are exact reals. `Float` and `Double` are not told apart, and IEEE rounding and `float` truncation of coordinates are not modelled.
- Geo.RouteDistance, Geo.GraphDistance: the haversine formula (`DistanzBerechner`) is the abstract metric `m`. Only non-negativity, symmetry and a bound below `Float.MAX_VALUE` are assumed of it.
- `StatistikBerechner.berechneGesamtLeistung` is not modelled, because it only sums floating-point values.
- Null arguments, and the exceptions that guard against them: a null list, graph, facility, neighbour or line. Null fields are modelled as `Option`.
- `HashMap` iteration order. Maps are association lists in first-insertion order, which can change the order of equal counts in a ranking. Every ranking property is stated for any tie order.
- Java `int` overflow. Counts, sums of days and the `(int)` cast in `berechneZusaetzlicheReisetage` are unbounded integers. Integer parsing keeps the 32-bit range.
- RouteOptimizer.TwoOptCorrect: the 2-opt loop runs for a `fuel` number of passes instead of until a pass finds nothing. TwoOptConverged states the result for a fuel bound large enough to converge.
- Settings.Config: the planning constants missing from `Konstanten` are the fields of this parameter, and their documented values are in `Settings.Documented`. Two other undeclared values are parameters too: the unknown-manufacturer placeholder (`unknown`), and the day-line prefix and separator (`ANLAGEN_ID_PREFIX`, `ANLAGEN_ID_TRENNER`).
- Validation.MinYear, Validation.MaxYear, Validation.MinPower, Validation.MaxPower, Correction.YearFactor, Correction.PowerFactor: the year bounds 1980-2026, the power bounds 0-200 MW and the year and power factors 10 and 100 are not declared in `Konstanten`. They are fixed constants here, with the values the source's comments give: `DatenfeldValidator.java:91` and `:125`, `DatenfeldKorrektor.java:124` and `:161`, and `KoordinatenKorrektor.java:132` and `:204`. The coordinate factor `Correction.CoordinateFactor` is not of this kind: it is the 1000 that `Konstanten` declares as `BREITENGRAD_FEHLERFAKTOR` and `LAENGENGRAD_FEHLERFAKTOR`.
- Numbers.ParseInt: only the ASCII digits `0`-`9` are accepted. Java's `Integer.parseInt` reads digits with `Character.digit`, which also accepts the other Unicode decimal digits (fullwidth or Arabic-Indic, for instance). Text written with those digits parses in Java but gives `None` here, and `-1` from `Fields.ParseIntOrMinusOne`. The dozens of Unicode decimal-digit ranges are left out to keep the digit test small.
- Library routines that cannot be seen are parameters: `Float.parseFloat` (`parseFloat`), the year parser the mapping calls (`parseYear`), `compareToIgnoreCase` (`text`, any consistent order, so case-insensitivity itself is not modelled) and `Float.toString` (`realText`). The line separator is the `newline` parameter.
- `KonstantenParser` repeats the `CsvParser` logic under German names. It is modelled once, by `Csv`.
- `KoordinatenValidierer`'s validity tests and corrections are the same as the field correctors' and validators'. They are modelled once, by `Correction.DivideIfValid` and `Validation.Valid`.
- ProximityGraph.Build models `baueGraphAuf` on a freshly constructed graph only; calling it twice on one graph is not modelled.
- Csv.Split: the field count `1 + commas` is proved only for lines without quotes. Quoted lines are covered by the round trip instead.
- Reference identity (`findeKnotenIndex`, `andererCluster == cluster`) is replaced by node and cluster indices.
- The type mismatches between `Float` and `Double` coordinates, and the year column's parser type, are not modelled. Both are taken as one optional real and one optional integer.
- `Object.toString` of the formatted values other than integers and reals is not modelled.

## Findings

| source | as written | input that shows it | evidently intended | confidence | as-written member | corrected member |
|---|---|---|---|---|---|---|
| src/util/CsvParser.java:72-85 | a quote followed by a quote is taken as an escaped pair wherever it occurs and also toggles the quote state, so after a doubled quote inside quotes the reader believes it is outside, the closing quote re-opens the field, and the record runs on across its line feed | the text `"a""b"` followed by LF and `z` | the record `a"b`, ending at the LF, as the field splitter of the same file reads a doubled quote | not executed | Csv.QuotedRecordBreaksAsWritten | Csv.QuotedRecordRoundTrip |
