# Book similarity graph — a Dafny model

This project models the graph component of a Rust program that reads a
Goodreads-style book dataset. `src/graph.rs` holds four functions:

- `build_graph` adds one node per book. It then adds a directed, weighted edge from the node the title map keeps for each book's title to the kept node of every other title, whenever the pair's similarity weight is positive. The weight is the sum of four criteria: shared authors 0.1, ratings within 0.5 of each other 1.0, both page counts known and within 50 pages 0.5, and the same publisher 0.2.
- `find_highly_connected_nodes` ranks nodes by out-degree.
- `analyze_degree_distribution` tallies how many nodes have each out-degree.
- `find_most_similar_neighbors` finds the heaviest edge.

Every contract in the table below is proved by Dafny.

How the source's entities appear in the model:

- **Book record.** A `Book` datatype with the fields of the Rust struct (`dataprep.dfy`).
- **Weights.** Kept in integer tenths: 1, 10, 5 and 2. Every possible sum of distinct increments is a distinct integer, so comparisons between weights select the same edge as the floating-point comparisons do (`similarity.dfy`).
- **Ratings.** Exact `real`s.
- **petgraph `DiGraph`.** A `Graph` datatype. It holds the node sequence and the edge sequence in insertion order; an edge names its endpoints by node index (`graph_model.dfy`).
- **`build_graph` (`builder.dfy`).** An imperative method: the node loop, the edge loop, one pass of the inner loop, and the loop body with its weight accumulator. Each is proved against recursive specification functions (`TitleIndex`, `Step`, `SourceEdges`, `AllEdges`).
- **`HashMap` iteration order.** Unspecified in Rust. The model takes it as a parameter `keyOrder`, which must list every key of the title map exactly once. The map is not changed during the edge loop, so every pass visits the keys in that same order. `builder_facts.dfy` proves which properties hold whatever the order is.
- **`find_highly_connected_nodes` (`connectivity.dfy`).** Pure functions. Rust's stable `sort_by` becomes a stable insertion sort, specified by sortedness, permutation and order among ties.
- **`analyze_degree_distribution` (`distribution.dfy`).** Its two loops are methods proved against `FullDistribution` and `TopDistribution`. The walk over the tally visits keys in an arbitrary order.
- **`find_most_similar_neighbors` (`most_similar.dfy`).** A method with the same strict `>` scan as the source.
- **Unit tests.** `scenario.dfy` works out the four sample books of the tests. `reports.dfy` states the analyses' independence from the map's iteration order.

The sample books give more edges than the two similar pairs. Edges:

- A↔B, weight 1.8;
- C↔D, weight 1.8;
- B→C, C→B, B→D and D→B, weight 1.0 each. Book B's rating of 4.0 lies within 0.5 of both 3.8 and 3.9.

That makes eight edges, with out-degrees A 1, B 3, C 2 and D 2 (`Scenario.SampleEdges`, `Scenario.SampleAnyOrder`).

## Model

| member | source | states |
|---|---|---|
| `Builder.BuildGraph` | src/graph.rs:6-56 | the graph has exactly the input books as nodes, in input order; its edges are the specification `BuiltEdges` for the given iteration order; every edge joins two existing nodes |
| `Builder.AddNodes` | src/graph.rs:11-14 | the node loop yields one node per book in input order and the title map in which a later duplicate title overwrites an earlier one |
| `Builder.TitleIndex` | src/graph.rs:13 | every book's title is a key, every key maps to an existing node, and the map has at most as many keys as there are books |
| `Builder.TitleIndexTitle` | src/graph.rs:13 | every key of the title map names a node carrying that title |
| `Builder.TitleIndexLast` | src/graph.rs:11-14 | a node is the one kept for its title exactly when no later book repeats the title |
| `Builder.AddEdges` | src/graph.rs:17-53 | the edge loop visits every book, in order, including overwritten duplicates, and produces exactly `BuiltEdges` |
| `Builder.AddSourceEdges` | src/graph.rs:19-51 | one pass of the inner loop appends exactly the edges of that source book over the keys in iteration order |
| `Builder.AddTargetEdge` | src/graph.rs:20-50 | the loop body skips the book's own title; otherwise it appends one edge from the source book's kept node to the target's node, carrying the pair's weight, exactly when that weight is positive |
| `Builder.PairWeight` | src/graph.rs:22-44 | the accumulator that starts at zero and adds each satisfied criterion's increment equals the similarity weight of the pair |
| `Builder.BuiltEdgesMembers` | src/graph.rs:17-53 | whatever the iteration order, an edge is in the graph exactly when some book contributes it: from the kept node of the book's title to the kept node of another title, with the book's positive weight against that node |
| `SimilarityRule.Weight` | src/graph.rs:22-44 | a weight is at most 1.8, and it is positive exactly when at least one criterion holds |
| `SimilarityRule.Decode` | src/graph.rs:22-44 | a decoded set of criteria has the decoded weight as its sum |
| `SimilarityRule.DecodeWeight` | src/graph.rs:22-44 | every weight is the sum of exactly one subset of the four increments: decoding a weight returns the criteria it came from |
| `SimilarityRule.NoCriterionNoWeight` | src/graph.rs:22-49 | a pair's weight is zero exactly when all four criteria fail, so such a pair gets no edge |
| `SimilarityRule.PagesContribution` | src/graph.rs:35-39 | the page criterion holds only when both page counts are present, and removing either page count removes exactly the 0.5 contribution while leaving the other criteria unchanged |
| `SimilarityRule.SimilaritySymmetric` | src/graph.rs:24-44 | every criterion is symmetric, so the weight does not depend on which book is the source |
| `BuilderFacts.NoSelfLoops` | src/graph.rs:17-20 | both endpoints of every edge are nodes, the two endpoints carry different titles, and there are no self-loops |
| `BuilderFacts.EdgeWeights` | src/graph.rs:22-49 | every edge weight is positive and at most 1.8, and records exactly the criteria some book with the source's title satisfies against the target |
| `BuilderFacts.PositivePairsJoined` | src/graph.rs:17-49 | every book is joined to every kept node of another title for which its weight is positive, from its own title's kept node, with that weight |
| `BuilderFacts.OverwrittenNodesIsolated` | src/graph.rs:13-18 | both endpoints of every edge are kept nodes, so a book whose title is repeated later has out-degree zero |
| `BuilderFacts.SymmetricWhenTitlesDistinct` | src/graph.rs:19-48 | with distinct titles, an edge A→B exists exactly when B→A does, with the same weight |
| `BuilderFacts.EdgeCountBound` | src/graph.rs:17-20 | there are at most n·(n−1) edges for n books |
| `BuilderFacts.SourceEdgesPermutation` | src/graph.rs:19 | one pass of the inner loop adds the same edges, counted with repetition, in any order of the keys |
| `BuilderFacts.EnumerationsPermute` | src/graph.rs:19 | two iteration orders of the same map are permutations of each other |
| `BuilderFacts.OrderIndependent` | src/graph.rs:17-53 | any two iteration orders give the same edges, the same number of times each, and so the same out-degree for every node |
| `GraphModel.OutDegree` | src/graph.rs:66 | a node's out-degree is at most the number of edges, and it is zero exactly when no edge leaves the node |
| `GraphModel.DegreesPermutation` | src/graph.rs:66 | the out-degrees depend only on the multiset of edges, not on their order |
| `Connectivity.Connections` | src/graph.rs:63-69 | there is one `(title, degree)` entry per node |
| `Connectivity.TopConnected` | src/graph.rs:62-74 | the ranking lists min(5, node count) entries |
| `Connectivity.SortByDegreeCorrect` | src/graph.rs:71 | the sort returns a permutation of its input, ordered by degree from largest to smallest, that keeps the input order among equal degrees |
| `Connectivity.TopConnectedCorrect` | src/graph.rs:62-74 | the listed entries plus the dropped ones are exactly the nodes' entries; the list is ordered by degree; no dropped node has a larger degree than a listed one; within each degree the listed nodes are the earliest in node order |
| `Connectivity.SameDegreesSameRanking` | src/graph.rs:62-74 | graphs with the same nodes and out-degrees have the same ranking |
| `Distribution.AnalyzeDegreeDistribution` | src/graph.rs:77-106 | the result is the top-ten distribution of the graph's out-degrees, for any order in which the tally map is walked |
| `Distribution.TallyDegrees` | src/graph.rs:82-85 | the tally has a key for exactly the out-degrees that occur, each mapped to the number of nodes having it |
| `Distribution.AddPercentages` | src/graph.rs:88-92 | the second map has the tally's keys, each with its count and the count's share of all nodes, as a percentage |
| `Distribution.TallyDistribution` | src/graph.rs:82-92 | a complete tally with its percentages is the full distribution |
| `Distribution.SortedKeys` | src/graph.rs:95-96 | the degree values are listed once each, strictly from largest to smallest |
| `Distribution.FullDistributionCorrect` | src/graph.rs:82-92 | the distribution has an entry for exactly the degrees that occur; each count is positive and is the number of nodes with that degree; a non-empty graph has a non-empty distribution |
| `Distribution.FullDistributionSums` | src/graph.rs:82-92 | before truncation, the counts add up to the number of nodes and the percentages to 100, in any iteration order of the map |
| `Distribution.TopDistributionCorrect` | src/graph.rs:94-105 | each kept entry is as in the full distribution; min(10, number of degree values) entries are kept; every degree value dropped is smaller than every one kept |
| `MostSimilar.FindMostSimilarNeighbors` | src/graph.rs:109-126 | the scan returns nothing exactly when no edge has a positive weight. Otherwise it returns the endpoint titles and weight of an edge that no edge outweighs and that every earlier edge is lighter than: the first heaviest edge |
| `Reports.ReportsOrderIndependent` | src/graph.rs:19 | the number of edges, the ranking and the degree distribution are the same for every iteration order of the title map |
| `Reports.NoPairOnlyWithoutEdges` | src/graph.rs:47-49 | every edge of a built graph has a positive weight, so the most-similar scan returns nothing exactly when the graph has no edges |
| `Scenario.SampleIndex` | src/graph.rs:133-167 | the title map of the sample books maps A, B, C and D to nodes 0 to 3 |
| `Scenario.SampleWeights` | src/graph.rs:133-167 | the sample pairs weigh 1.8 inside {A, B} and inside {C, D}, 1.0 between B and C and between B and D, and 0 between A and C and between A and D |
| `Scenario.SampleEdges` | src/graph.rs:169-176 | with the keys visited in title order, the sample graph has exactly eight edges, listed in insertion order |
| `Scenario.SampleAnyOrder` | src/graph.rs:169-176 | in every iteration order the sample graph has eight edges and out-degrees 1, 3, 2, 2 |
| `Scenario.SampleRanking` | src/graph.rs:178-185 | the sample ranking is B (3), C (2), D (2), A (1), with C ahead of D as in node order |
| `Scenario.SampleDistribution` | src/graph.rs:187-195 | the sample distribution is degree 3: one node (25%), degree 2: two nodes (50%), degree 1: one node (25%) |
| `Scenario.SampleFirstEdge` | src/graph.rs:197-206 | in every iteration order the first edge is A→B with weight 1.8 |
| `Scenario.SampleRun` | src/graph.rs:169-206 | the four unit tests in one run, for any iteration order: 4 nodes and 8 edges, four ranked entries, a non-empty distribution with positive counts (given in full), and A→B with weight 1.8 as the most similar pair |

## Left out

- CSV reading (`parse_csv` in src/dataprep.rs) and all of src/main.rs are file I/O and printing. Only the `Book` record's shape is modelled.
- The `println!` report inside `analyze_degree_distribution` is output only and does not affect the returned map.
- Floating-point arithmetic is modelled exactly:
  - weights are integer tenths;
  - ratings and percentages are exact reals.

  IEEE rounding is not modelled: of rating differences close to 0.5, of the weight sums, or of the percentage division.
  Non-finite ratings (NaN or infinity, which Rust's `f64` parser accepts) are not modelled either: a `real` is always finite, whereas a NaN rating fails the rating comparison against every book.
- `SimilarityRule.ClosePages` subtracts page counts as unbounded integers. The Rust `u32 as i32` cast, which wraps for page counts of 2^31 and above, is not modelled.
- petgraph's internals (`DiGraph`, `node_weight(..).unwrap()`, `edge_endpoints`) are abstracted to sequences. `edge_endpoints` always succeeds for an edge of the graph, so `FindMostSimilarNeighbors` requires a well-formed graph instead of modelling the `None` branch.
- `Distribution.AddPercentages` requires a positive node count whenever the tally is non-empty. Rust's floating-point division would not fail on zero, but the case cannot arise: the tally is built from the nodes, so it is empty when there are none.
- The `node_map.get(&book.title)` lookup in the edge loop always succeeds, because every title was inserted by the node loop. The model has no failing branch for it.
- The iteration order of a Rust `HashMap` is a parameter, not a hashing model. The inner loop of `build_graph` takes any enumeration of the keys. The walk over the tally in `analyze_degree_distribution` is the `:|` choice of any remaining key.
- `Connectivity.SortByDegree` is an insertion sort, not Rust's merge sort. It is proved stable, which is all that `sort_by` promises. The model does not capture the number of comparisons.
- The returned `HashMap` of `analyze_degree_distribution` is a Dafny `map`, so the order of its entries is not modelled; the source does not specify that order either.
