# Multi-objective routing over a weighted network, in Dafny

This project models the path-selection engine of a small network routing system.
The network is an undirected graph:

- every node carries a processing delay and a reliability;
- every link carries a bandwidth, a delay and a reliability.

A path is scored by three costs:

- its total delay;
- its reliability cost, the sum of −ln of the reliabilities it crosses;
- its resource cost, the sum of 1000 / bandwidth over its links.

The three costs are combined by a weighted sum. Three solvers look for a cheap path from a source to a destination:

- an ant colony;
- a genetic algorithm;
- a Q-learning agent.

The route handler first filters the network by a minimum bandwidth and then reports the path's bottleneck, maximum capacity and usage. The web form keeps the three user weights within a budget of 1.

One module per source file:

| module | file | models |
|---|---|---|
| `Graphs` | `graphs.dfy` | the network: node and link attribute records with optional fields, adjacency in the order the graph was given (the order first-maximum tie-breaking reads), walks, the laws of −ln |
| `Metrics` | `metrics.dfy` | `Ag_olusturma.py`: the three path costs, the reliability product, path validity, the weighted sum |
| `Aco` | `aco.dfy` | `ACO_algorithm.py`: edge cost and heuristic, the pheromone table (a class updated in place), path construction, the main loop with elitism and evaporation |
| `Genetic` | `genetic.dfy` | `genetik_alg.py`: random paths, population, fitness, tournament, crossover, mutation, the generation loop and the result record |
| `QLearning` | `qlearning.dfy` | `QLearning_algorithm.py`: the agent as a class whose Q table and exploration rate change in place |
| `Routing` | `routing.dfy` | `app.py`: the bandwidth filter, bottleneck, maximum capacity and usage |
| `WeightBudget` | `weights.dfy` | `static/script.js`: the clamp of `handleWeightInput` and the two fields it writes |

How the model is stated:

- **Attributes.** A missing attribute is `None`. A `.get(key, default)` in the source is `GetOr`. A strict lookup `[key]` becomes a precondition of the operation that makes it.
- **Exceptions.** The exceptions below, which the source raises on its own inputs, become `Err` results. The arithmetic exceptions listed under "## Left out" are preconditions instead:
  - a zero division in `deposit_pheromone`;
  - `random.choice` of an empty list;
  - `random.randint(a, b)` with b < a;
  - `random.sample` with k greater than the population;
  - `len(None)`.
- **Logarithm and powers.** −ln is a function parameter `negLog`, constrained by `NegLogLaws`: it is non-negative on (0, 1] and turns products into sums. Powers (`tau ** alpha`) are a parameter `pow`.
- **Randomness.** A random draw is a nondeterministic choice (`:|`) from exactly the set the source draws from, or an argument of the function.

## Model

| member | source | states |
|---|---|---|
| `Graphs.NeighborIsEdge` | BilgisayarAglariProje/ACO_algorithm.py:63 | in an undirected graph, the neighbours of a node are exactly the nodes it shares a link with, and they are nodes of the graph |
| `Graphs.NegLogOfProduct` | BilgisayarAglariProje/Ag_olusturma.py:129-131 | −ln of a product of positive numbers is the sum of the −ln of the factors |
| `Graphs.NegLogOfOne` | BilgisayarAglariProje/Ag_olusturma.py:129-131 | −ln 1 = 0 follows from the product law |
| `Metrics.TotalDelay` | BilgisayarAglariProje/Ag_olusturma.py:82-117 | 0 for `None` and for a path of fewer than two nodes; otherwise the sum of the link delays plus the processing delays of the interior nodes only |
| `Metrics.PathDelayNonNeg` | BilgisayarAglariProje/Ag_olusturma.py:102-117 | the total delay is non-negative when the delays are |
| `Metrics.ReliabilityCost` | BilgisayarAglariProje/Ag_olusturma.py:120-138 | the loop computes the sum of −ln over every link and every node of the path, both ends included; for a single node it is −ln of that node's reliability |
| `Metrics.PathReliabilityCostNonNeg` | BilgisayarAglariProje/Ag_olusturma.py:120-138 | the reliability cost is non-negative when the reliabilities lie in (0, 1] |
| `Metrics.ResourceCost` | BilgisayarAglariProje/Ag_olusturma.py:142-151 | the loop computes the sum of 1000 / bandwidth over the links, which is 0 for fewer than two nodes |
| `Metrics.PathResourceCostNonNeg` | BilgisayarAglariProje/Ag_olusturma.py:142-151 | the resource cost is non-negative for positive bandwidths |
| `Metrics.TotalReliability` | BilgisayarAglariProje/Ag_olusturma.py:155-176 | the loop computes the product of all link and node reliabilities, each 1 when missing, and returns 0 as soon as a consecutive pair is not a link |
| `Metrics.PathReliabilityInUnit` | BilgisayarAglariProje/Ag_olusturma.py:155-176 | with every reliability in [0, 1] the path reliability lies in [0, 1] |
| `Metrics.ReliabilityCostIsNegLogOfReliability` | BilgisayarAglariProje/Ag_olusturma.py:129-131 | on a walk, the reliability cost equals −ln of the total reliability, and that reliability is positive |
| `Metrics.InRangeIsScorable` | BilgisayarAglariProje/Ag_olusturma.py:120-151 | a network with every attribute in range has everything the three costs look up |
| `Metrics.ScorableWalkMetricsDefined` | BilgisayarAglariProje/Ag_olusturma.py:82-151 | on such a network every walk can be scored |
| `Metrics.IsValidPath` | BilgisayarAglariProje/Ag_olusturma.py:185-210 | false for fewer than two nodes; otherwise true exactly when every node is in the graph, every consecutive pair is a link and, under a bound, every link's bandwidth (0 when missing) reaches it |
| `Metrics.ValidPathIsWalk` | BilgisayarAglariProje/Ag_olusturma.py:185-210 | a valid path is a walk of at least two nodes of the graph |
| `Metrics.ValidPathMonotone` | BilgisayarAglariProje/Ag_olusturma.py:205-208 | valid under a bound implies valid under any lower bound and with no bound |
| `Metrics.WeightedSum` | BilgisayarAglariProje/Ag_olusturma.py:231-244 | the user-weighted sum of delay, reliability cost and resource cost; a unit weight on one metric gives that metric alone |
| `Metrics.WeightedSumNonNeg` | BilgisayarAglariProje/Ag_olusturma.py:231-244 | the weighted sum of the three costs is non-negative for non-negative weights and in-range attributes |
| `Aco.EdgeCost` | BilgisayarAglariProje/ACO_algorithm.py:27-33 | the weighted link delay, 1000 / bandwidth and −ln of the link reliability; it equals the weighted sum of the one-link path [u, v] minus the reliability terms of its two end nodes |
| `Aco.EdgeCostSymmetric` | BilgisayarAglariProje/ACO_algorithm.py:27-33 | the edge cost is the same in both orientations of a link |
| `Aco.EdgeCostNonNeg` | BilgisayarAglariProje/ACO_algorithm.py:27-33 | the edge cost is defined and non-negative for in-range attributes and non-negative weights |
| `Aco.ScorableEdgeCostDefined` | BilgisayarAglariProje/ACO_algorithm.py:27-33 | on a scorable network every link has the attributes the edge cost reads |
| `Aco.Heuristic` | BilgisayarAglariProje/ACO_algorithm.py:164 | 1 / max(0.0001, cost) is positive and at most 10000, and it is the exact reciprocal of any cost above the floor |
| `Aco.HeuristicAntitone` | BilgisayarAglariProje/ACO_algorithm.py:164 | a dearer link never has a larger heuristic |
| `Aco.BuildHeuristicMap` | BilgisayarAglariProje/ACO_algorithm.py:160-166 | the heuristic map has exactly the links as keys, with the heuristic of the edge cost, the same under both orientations |
| `Aco.InitializePheromones` | BilgisayarAglariProje/ACO_algorithm.py:41-46 | both orientations of every link get the initial value, and there are no other keys |
| `Aco.Candidates` | BilgisayarAglariProje/ACO_algorithm.py:60 | the candidates are exactly the unvisited neighbours |
| `Aco.PositiveSumHasPositiveTerm` | BilgisayarAglariProje/ACO_algorithm.py:72-78 | non-negative weights with a non-zero total include a positive weight |
| `Aco.ChooseNextNode` | BilgisayarAglariProje/ACO_algorithm.py:56-78 | `None` exactly when every neighbour is visited; otherwise an unvisited neighbour, and one of positive weight when the weights are non-negative with a non-zero total |
| `Aco.BuildPath` | BilgisayarAglariProje/ACO_algorithm.py:87-101 | a returned path starts at S, ends at D, has distinct nodes and consecutive pairs that are links; `None` only at a dead end reached by such a walk |
| `Aco.EvaluatePath` | BilgisayarAglariProje/ACO_algorithm.py:113-119 | the total is the weighted sum, and the three components are the delay, reliability cost and resource cost of the path |
| `Aco.PheromoneTable.Evaporate` | BilgisayarAglariProje/ACO_algorithm.py:127-129 | every entry is multiplied by 1 − rho, and the key set is unchanged |
| `Aco.PheromoneTable.Deposit` | BilgisayarAglariProje/ACO_algorithm.py:137-143 | Q / cost is added to both orientations of each link of the path and nothing else changes; for a non-negative amount no entry decreases |
| `Aco.DepositedOnDistinct` | BilgisayarAglariProje/ACO_algorithm.py:137-143 | on a path without repeated nodes each link receives the amount once |
| `Aco.RunAnt` | BilgisayarAglariProje/ACO_algorithm.py:170-184 | one ant: a found path is appended, is simple and is scored into the best-so-far, which changes only on a strictly smaller cost; the table gains exactly that path's deposit of Q = 1 over its cost; an ant that finds no path has met a dead end and leaves the table as it was; a zero cost is the division error, with the table unchanged |
| `Aco.AntWave` | BilgisayarAglariProje/ACO_algorithm.py:170-184 | all ants of one iteration: at most one path per ant, fewer only where the graph has a dead end and never when S = D; the best-so-far stays the cheapest path found; the table becomes the old one plus the deposits of exactly the paths found; on the division error the table holds the deposits up to the raising ant |
| `Aco.NewBest` | BilgisayarAglariProje/ACO_algorithm.py:179-182 | replacing the best on a strictly smaller cost keeps it the cheapest found, first found on ties |
| `Aco.BestFacts` | BilgisayarAglariProje/ACO_algorithm.py:186-188 | a recorded best path is a walk with a finite non-zero cost, positive when every cost is |
| `Aco.DepositBest` | BilgisayarAglariProje/ACO_algorithm.py:186-188 | when a best path exists it deposits Q = 2 over its cost on each of its links, else nothing; for a positive best cost no entry decreases |
| `Aco.Reinforce` | BilgisayarAglariProje/ACO_algorithm.py:186-192 | the best path deposits with Q = 2 and then everything evaporates; with rho = 0 and a positive best cost no entry decreases |
| `Aco.Iteration` | BilgisayarAglariProje/ACO_algorithm.py:169-192 | one iteration: the paths found and the dead-end tie as for a wave; every entry becomes (old entry + the ants' deposits + the elitist deposit of the new best) · (1 − rho); with rho = 0 and positive costs no entry decreases |
| `Aco.RecordedIteration` | BilgisayarAglariProje/ACO_algorithm.py:169-192 | one iteration extends the recorded course of the run: the new table, the paths found and the new best are appended to the history |
| `Aco.RecordedNonDecreasing` | BilgisayarAglariProje/ACO_algorithm.py:186-192 | without evaporation and with positive costs no iteration of a recorded run lowers an entry |
| `Aco.Iterations` | BilgisayarAglariProje/ACO_algorithm.py:169-192 | after `n_iterations` iterations the run is recorded in full, with the best-so-far the cheapest of all paths found; an error is the zero-cost deposit of the last path found |
| `Aco.BestRecord` | BilgisayarAglariProje/ACO_algorithm.py:179-182 | a recorded best is a simple path from S to D with its own cost and metrics; otherwise the record is empty with infinite cost |
| `Aco.Aco` | BilgisayarAglariProje/ACO_algorithm.py:155-194 | the result is the first cheapest of all paths the ants found, all simple from S to D, returned with its cost and metrics, or no path with infinite cost, and then some ant met a dead end or no ant ran (zero ants or zero iterations); at most one path per ant; the initial pheromone is uniform; each recorded table follows from the one before by that iteration's deposits, the elitist deposit and evaporation; with rho = 0 and positive costs the history never decreases |
| `Aco.RunDone` | BilgisayarAglariProje/ACO_algorithm.py:194 | a finished run returns a simple path with its own cost and metrics, or the empty record because of a dead end or because no ant ran |
| `Genetic.RandomPath` | BilgisayarAglariProje/genetik_alg.py:15-30 | a returned path starts at the source, ends at the target, is a walk and has at most `max_hops` links; an error only when a reached node has no neighbours; `None` only after an attempt that walked all `max_hops` links without reaching the target; no hops means `None` |
| `Genetic.HopWalkIsRoute` | BilgisayarAglariProje/genetik_alg.py:15-45 | such a path passes `is_valid_path` |
| `Genetic.CreatePopulation` | BilgisayarAglariProje/genetik_alg.py:36-45 | exactly `size` paths, each a valid path from source to target; the `random.choice` error only when some walk from the source strands at a node without neighbours; running out of budget only when the budget is below `size` or some attempt missed the target, since every walk that reaches it passes `is_valid_path` |
| `Genetic.Fitness` | BilgisayarAglariProje/genetik_alg.py:51-56 | 0 for no path; for a path, its product with 1 + the default-weight cost is 1, and it lies in (0, 1] when that cost is non-negative |
| `Genetic.FitnessOfCostInUnit` | BilgisayarAglariProje/genetik_alg.py:51-56 | 1 / (1 + cost) lies in (0, 1] for a non-negative cost, and is 1 only at cost 0 |
| `Genetic.FitnessOfCostOrder` | BilgisayarAglariProje/genetik_alg.py:51-56 | a lower cost gives strictly higher fitness, and conversely |
| `Genetic.FitnessRanksPaths` | BilgisayarAglariProje/genetik_alg.py:51-56 | fitness of `None` is 0; of a path it is in (0, 1] and ranks paths in reverse order of their weighted sum under the default weights |
| `Genetic.RouteIsMember` | BilgisayarAglariProje/genetik_alg.py:41-44 | a valid path from source to target on an in-range network can be scored |
| `Genetic.Sample` | BilgisayarAglariProje/genetik_alg.py:63 | k candidates drawn without replacement from the population |
| `Genetic.Fittest` | BilgisayarAglariProje/genetik_alg.py:64 | the first candidate of greatest fitness |
| `Genetic.TournamentSelection` | BilgisayarAglariProje/genetik_alg.py:62-64 | succeeds exactly when 0 < k ≤ the population size, returning a population member of greatest fitness among the sample; k above the size is the sampling error |
| `Genetic.IndexOf` | BilgisayarAglariProje/genetik_alg.py:79-80 | the first occurrence of a node |
| `Genetic.Crossover` | BilgisayarAglariProje/genetik_alg.py:70-81 | without a shared interior node, one of the parents; otherwise the first parent before its first occurrence of the drawn shared node, then the second parent from its first occurrence, ending where the second parent ends |
| `Genetic.CrossoverIsRoute` | BilgisayarAglariProje/genetik_alg.py:70-81 | crossing two valid paths from source to target gives a valid path from source to target |
| `Genetic.JoinIsRoute` | BilgisayarAglariProje/genetik_alg.py:81 | `p1[:i] + p2[j:]` at a shared node is a valid path from source to target |
| `Genetic.CrossoverWithItself` | BilgisayarAglariProje/genetik_alg.py:73-81 | crossing a path with itself returns it unchanged |
| `Genetic.Mutate` | BilgisayarAglariProje/genetik_alg.py:87-101 | unchanged when the draw is above the rate; the `randint` error exactly when it fires on a path of fewer than three nodes; otherwise a path of the same length |
| `Genetic.MutateChangesOnePosition` | BilgisayarAglariProje/genetik_alg.py:87-102 | a mutation fails only when it fires on a path of fewer than three nodes; otherwise the result has the same length and ends and differs at most at the chosen interior index, which holds a neighbour of the node it replaced |
| `Genetic.Child` | BilgisayarAglariProje/genetik_alg.py:126-130 | the kept child is a valid path; the only error is the mutation's empty range |
| `Genetic.ChildOfMembers` | BilgisayarAglariProje/genetik_alg.py:126-130 | for two members: the child raises exactly when the mutation fires on a crossover of fewer than three nodes; it is dropped exactly when the mutated path is not valid; a kept child is a member; without a mutation the crossover child is always kept |
| `Genetic.Offspring` | BilgisayarAglariProje/genetik_alg.py:126-130 | the result is `Child` of the two parents under draws that the source can make, named in `d`; a kept child is a valid path from source to target; the only error is the mutation's empty range |
| `Genetic.Mate` | BilgisayarAglariProje/genetik_alg.py:123-130 | one pass of the inner loop: two tournament winners of the population and the child they give under the draws made; a population smaller than the tournament is the sampling error |
| `Genetic.Generation` | BilgisayarAglariProje/genetik_alg.py:122-132 | the new population of a sequence of passes: the kept children in order, or the first error; at most one child per pass |
| `Genetic.GenerationEmpty` | BilgisayarAglariProje/genetik_alg.py:122-132 | a generation is empty exactly when every pass dropped its child |
| `Genetic.EmptyGenerationMutated` | BilgisayarAglariProje/genetik_alg.py:122-132 | when a generation bred from members is empty, the mutation fired in every pass |
| `Genetic.Breed` | BilgisayarAglariProje/genetik_alg.py:122-132 | `pop_size` passes, each two tournament winners of the population and their child; the new population is exactly `Generation` of those passes: every kept child once and in order, a child dropped only when `is_valid_path` rejects it; at most `pop_size` children, all members; when `pop_size` > 0, a population smaller than the tournament is the sampling error |
| `Genetic.UpdateBest` | BilgisayarAglariProje/genetik_alg.py:133-137 | the best fitness never decreases and bounds the population; the best changes only to the first member of strictly greater fitness |
| `Genetic.BestExtended` | BilgisayarAglariProje/genetik_alg.py:131-137 | one more generation keeps the best the fittest of all bred generations, and the first member in generation and population order to reach that fitness |
| `Genetic.RouteScoredPositive` | BilgisayarAglariProje/genetik_alg.py:135 | a scored path has positive fitness, so a non-empty generation always sets a best path |
| `Genetic.NextGeneration` | BilgisayarAglariProje/genetik_alg.py:120-137 | one generation: the next population is bred from the last one and the best is updated over it, extending the run's record; the `randint` error only when the recorded passes over the population end in it, one of them having mutated a crossover child of fewer than three nodes, which needs a mutation rate of at least 0; the sampling error only when the population is smaller than the tournament |
| `Genetic.GenerationRaised` | BilgisayarAglariProje/genetik_alg.py:122-130 | a generation bred from members fails only with the `randint` error, raised by a pass whose mutation fired on a crossover child of fewer than three nodes; so never when the mutation rate is negative |
| `Genetic.NoBestMeansMutated` | BilgisayarAglariProje/genetik_alg.py:118-137 | without a best path after a generation of a non-empty population there was one generation only, and the mutation fired for every child of it |
| `Genetic.GeneticAlgorithm` | BilgisayarAglariProje/genetik_alg.py:108-143 | the first population has `pop_size` paths and each later one is bred from the one before by `pop_size` passes of tournament, crossover and mutation, keeping exactly the valid children; the returned best is the fittest path of all bred generations with its fitness, the earliest on ties; no best after at least one generation of a non-empty population (`pop_size` > 0) happens only with one generation in which the mutation fired for every child; the errors are tied to their causes: the `random.choice` error to a stranded walk and the budget to a missed attempt, both before any population exists; the sampling error to a last generation smaller than the tournament; the `randint` error to recorded passes over the last generation, one of which mutated a child of fewer than three nodes |
| `Genetic.RunGa` | BilgisayarAglariProje/genetik_alg.py:166-190 | the record holds a valid best path with its delay, reliability, default-weight cost and fitness; its reliability is in (0, 1] and its reliability cost is −ln of it; the best is the earliest fittest member of the bred generations; an error is one of the exceptions of the source, each tied to its cause as in `Genetic.GeneticAlgorithm`, and `len(None)` only when every bred generation was empty |
| `Genetic.InRangeReliability` | BilgisayarAglariProje/Ag_olusturma.py:155-176 | on an in-range network the reliability of a walk is at most 1 |
| `QLearning.ZeroTableShaped` | BilgisayarAglariProje/QLearning_algorithm.py:26-29 | the initial table has one row per node, keyed by exactly its neighbours |
| `QLearning.QLearningAgent.constructor` | BilgisayarAglariProje/QLearning_algorithm.py:9-29 | the parameters are stored and every Q value is 0 |
| `QLearning.QLearningAgent.GetQValue` | BilgisayarAglariProje/QLearning_algorithm.py:31-32 | the entry, or 0 for an absent state or action |
| `QLearning.RewardNonPositive` | BilgisayarAglariProje/QLearning_algorithm.py:34-57 | for non-negative weights and plausible attributes no step has a positive reward, the fallbacks included |
| `QLearning.Reward` | BilgisayarAglariProje/QLearning_algorithm.py:34-57 | with attributes in range the reward is minus the ant colony's edge cost, minus the weighted processing delay and node reliability cost of the node entered |
| `QLearning.FirstArgMax` | BilgisayarAglariProje/QLearning_algorithm.py:113-114 | the first neighbour of greatest Q value |
| `QLearning.FirstArgMaxOfTies` | BilgisayarAglariProje/QLearning_algorithm.py:113-114 | when all values tie, the first neighbour |
| `QLearning.MaxQ` | BilgisayarAglariProje/QLearning_algorithm.py:66-67 | the greatest Q value over the neighbours, reached by one of them |
| `QLearning.QLearningAgent.ChooseAction` | BilgisayarAglariProje/QLearning_algorithm.py:59-69 | `None` exactly when the state has no neighbours; otherwise a neighbour, and in the exploit branch one of greatest Q value |
| `QLearning.QLearningAgent.BestNext` | BilgisayarAglariProje/QLearning_algorithm.py:75-77 | the greatest Q value among the neighbours of the next state, or 0 when it has none |
| `QLearning.BellmanBetween` | BilgisayarAglariProje/QLearning_algorithm.py:79-82 | with a learning rate in [0, 1] the new value lies between the old value and the target |
| `QLearning.QLearningAgent.UpdateQValue` | BilgisayarAglariProje/QLearning_algorithm.py:71-82 | only the one entry changes, to old + lr · (reward + γ · maxNext − old), and the table keeps its shape |
| `QLearning.QLearningAgent.Step` | BilgisayarAglariProje/QLearning_algorithm.py:92-100 | one step: choose, reward (plus 1000 into the goal), update only that entry; the new table is `Learn` of the old one; at an exploration rate of at most 0 the step goes to a neighbour of greatest Q value in the old table |
| `QLearning.QLearningAgent.Learn` | BilgisayarAglariProje/QLearning_algorithm.py:95-99 | the update of one step: its entry moves by the Bellman equation towards the reward, plus 1000 into the goal, and the discounted best value of the state entered; no other entry changes; the table keeps its shape |
| `QLearning.QLearningAgent.RunEpisode` | BilgisayarAglariProje/QLearning_algorithm.py:88-102 | an episode is a walk from the start of at most 100 steps that stops at the goal or at a node without neighbours; the new table is the replay of its steps, one Bellman update each, in order, so only the entries it steps through change; at an exploration rate of at most 0 every step goes to a neighbour of greatest Q value in the table as it stood before that step |
| `QLearning.QLearningAgent.ReplayOffTrace` | BilgisayarAglariProje/QLearning_algorithm.py:92-102 | replaying a walk changes only the entries of the steps it takes |
| `QLearning.QLearningAgent.ReplayAtRateZero` | BilgisayarAglariProje/QLearning_algorithm.py:79-82 | with learning rate 0, replaying a walk leaves every entry as it was |
| `QLearning.OnTraceAppend` | BilgisayarAglariProje/QLearning_algorithm.py:100-102 | the steps of a longer walk are the old steps plus the new one |
| `QLearning.SameOffTraceExtend` | BilgisayarAglariProje/QLearning_algorithm.py:100-102 | a table that agrees off a walk, updated at the next step, agrees off the extended walk |
| `QLearning.VisitedAppend` | BilgisayarAglariProje/QLearning_algorithm.py:87 | the steps of all episodes grow by those of the newest |
| `QLearning.QLearningAgent.Train` | BilgisayarAglariProje/QLearning_algorithm.py:84-104 | the exploration rate ends as initial · decay^episodes with no floor; the table ends as the replay of every episode in order; entries no episode stepped through are unchanged; zero episodes leave the table as it was; every episode that starts at an exploration rate of at most 0 (from the start, or after a decay of 0) takes only greatest-Q steps |
| `QLearning.QLearningAgent.ReplayAllOffVisited` | BilgisayarAglariProje/QLearning_algorithm.py:86-102 | replaying the episodes in order changes only the entries some episode stepped through |
| `QLearning.PowerInUnit` | BilgisayarAglariProje/QLearning_algorithm.py:104 | a power of a decay in [0, 1] lies in [0, 1] |
| `QLearning.PowerAntitone` | BilgisayarAglariProje/QLearning_algorithm.py:104 | more decays never raise the power |
| `QLearning.DecayNeverRaises` | BilgisayarAglariProje/QLearning_algorithm.py:104 | the exploration rate never rises over training |
| `QLearning.QLearningAgent.Greedy` | BilgisayarAglariProje/QLearning_algorithm.py:113-114 | the greedy action is a neighbour of greatest Q value |
| `QLearning.QLearningAgent.UntrainedFollowsFirstNeighbour` | BilgisayarAglariProje/QLearning_algorithm.py:113-114 | on an all-zero table the greedy action is the first neighbour |
| `QLearning.QLearningAgent.GetBestPath` | BilgisayarAglariProje/QLearning_algorithm.py:106-125 | the path starts at the start node, has distinct nodes, consecutive links and at most 51 nodes, each step greedy; it stops at the goal, at 51 nodes, at a node without neighbours or before a repeat |
| `Routing.FilterGraphByBandwidth` | BilgisayarAglariProje/app.py:36-42 | the loop returns exactly `Filtered(g, bound)`: every node kept, a link kept iff its bandwidth (0 when missing) reaches the bound, with its attributes; each neighbour list keeps the input's order, not the order `G.copy()` rebuilds |
| `Routing.RemoveEdge` | BilgisayarAglariProje/app.py:41 | both orientations of the link and its adjacency entries go, nothing else changes; a missing link is a no-op, where networkx raises |
| `Routing.FilteredLinks` | BilgisayarAglariProje/app.py:36-42 | every node stays; a link stays, with its attributes, exactly when its bandwidth (0 when missing) reaches the bound |
| `Routing.FilteredValid` | BilgisayarAglariProje/app.py:36-42 | the filtered graph is again undirected |
| `Routing.FilterTwice` | BilgisayarAglariProje/app.py:39-41 | filtering by b1 then b2 equals filtering by max(b1, b2) |
| `Routing.FilterIdempotent` | BilgisayarAglariProje/app.py:39-41 | filtering twice by the same bound changes nothing |
| `Routing.FilterAntitone` | BilgisayarAglariProje/app.py:39-41 | a higher bound keeps a subset of the links |
| `Routing.FilteredValidPath` | BilgisayarAglariProje/app.py:36-42 | a path valid in the filtered graph is valid in the original under the bound, and conversely |
| `Routing.Bandwidths` | BilgisayarAglariProje/app.py:213 | the bandwidths of the path's links in order |
| `Routing.Bottleneck` | BilgisayarAglariProje/app.py:213-214 | the smallest link bandwidth of the path, reached by one link; 0 for a single node |
| `Routing.MaxCapacity` | BilgisayarAglariProje/app.py:213-215 | the largest link bandwidth of the path, reached by one link; 0 for a single node |
| `Routing.BottleneckAtMostCapacity` | BilgisayarAglariProje/app.py:213-215 | bottleneck ≤ maximum capacity |
| `Routing.Usage` | BilgisayarAglariProje/app.py:217-223 | 0 when the bottleneck is not positive; otherwise positive, and at most 100 exactly when the demand (the bound, or 100 without one) fits in the bottleneck |
| `Routing.UsageOnFilteredAtMostFull` | BilgisayarAglariProje/app.py:36-42 | on the graph filtered by a positive bound, a walk's bottleneck reaches the bound and its usage is in (0, 100] |
| `WeightBudget.ChangedIndex` | BilgisayarAglariProje/static/script.js:235 | the first weight one of whose ids matches, or −1 |
| `WeightBudget.ClampWeight` | BilgisayarAglariProje/static/script.js:247-252 | the result is in [0, max(0, 1 − otherSum)], equals the request when that is in range, is 0 when otherSum ≥ 1, and is the budget when the request exceeds it |
| `WeightBudget.ClampKeepsBudget` | BilgisayarAglariProje/static/script.js:247-252 | when otherSum ≤ 1 the clamped weight with the others sums to at most 1 |
| `WeightBudget.ClampKeepsWithinBudget` | BilgisayarAglariProje/static/script.js:239-252 | writing the clamp of any request into one of three non-negative weights summing to at most 1 keeps them so |
| `WeightBudget.WeightPanel.HandleWeightInput` | BilgisayarAglariProje/static/script.js:228-259 | unparsable text counts as 0; only the changed weight's slider and number box are written, with the clamp; an unknown id writes nothing; a balanced panel stays balanced |

## Left out

- Input and output: printing, CSV loading at import, the `__main__` demos, `find_all_paths`, and the whole web layer (Flask routes, caching, drawing, locks, DOM and fetch code).
- `run_aco`: not part of this model. Only `ACO` itself is modelled.
- The `run_ga` call in the route handler passes arguments that do not match the signature of `run_ga`. `run_ga` is modelled as written, and that call is not.
- Probabilities: roulette proportionality, exploration odds and mutation odds. Only which values can be drawn is modelled.
- Arithmetic exceptions are preconditions, not `Err` results:
  - the `ValueError` of `math.log` on a reliability that is not positive, in `reliability_cost` and `compute_edge_cost` (`HasLinkReliability`, `HasNodeReliability`, `EdgeCostDefined`, `Scorable`);
  - the `ZeroDivisionError` of `1000 / bw` on a zero bandwidth, in `resource_cost` and `compute_edge_cost` (`HasBandwidth`, `EdgeCostDefined`, `Scorable`);
  - the `ZeroDivisionError` of `1 / (1 + cost)` at cost −1, in `fitness` (the precondition of `Genetic.Fitness`).
  
  The genetic-algorithm members (`Genetic.Breed`, `Genetic.GeneticAlgorithm`, `Genetic.RunGa` and the lemmas they use) go further and require that every attribute lies in the network's stated ranges (`InRange`). So none of these three exceptions can arise there.
- Aco.BuildHeuristicMap and Aco.Aco: the `Scorable` precondition asks every node and every link to carry the attributes the costs read. The heuristic reads only link attributes, and `evaluate_path` reads only the nodes of a found path, so the source still runs on a network with a gap elsewhere. The model does not cover such networks.
- Floating point: every number is a real. IEEE rounding, infinities other than the initial best cost, and `toFixed(2)` are not modelled.
- −ln and powers are parameters. The model uses only the two laws of −ln and nothing about `pow`.
- Genetic.CreatePopulation: the source loop retries without bound. The model takes a `fuel` budget and reports `OutOfFuel` when it runs out.
- QLearning.QLearningAgent.RunEpisode and Train: the trace of visited steps is ghost. Which action a random draw picks is not determined: among neighbours tied for the greatest Q value, and at a positive exploration rate among all neighbours.
- Routing.RemoveEdge: removing a missing link is a no-op, where networkx raises `NetworkXError`. In the filter this happens only for the second orientation of a link already removed, and the source never visits that orientation.
- Routing.FilterGraphByBandwidth: the model visits each orientation of a link, and removing an already removed link is a no-op. The source lists each undirected link once. The source filters a `G.copy()`, which rebuilds every neighbour list: neighbours earlier in node order come first, in node order, then the rest. The model has no node order and keeps each list in the input's order, so on the filtered graph the first-maximum tie-breaking of `QLearningAgent.GetBestPath` and `ChooseAction` can move to a different tied neighbour than the source does.
- WeightBudget.WeightPanel.HandleWeightInput: an id of no weight makes the source fail when it indexes the weights list. The model returns `false` and writes nothing. It also writes the exact clamp rather than the two-decimal `toFixed(2)` text the source writes.

Where the prose description of the system and the code disagree, the model follows the code:

- `mutate` draws from the neighbours of the node being replaced, not of its predecessor. When it fires on a two-node path, `randint(1, 0)` raises.
- The exploration rate has no floor.
- `get_best_path` returns the partial path it has when it stops short of the goal.
- The genetic algorithm:
  - has no shortcut for source == target and no bandwidth repair;
  - scores on the global graph without a bandwidth bound;
  - never scores the initial population for the best path.
- `run_ga` raises when no best path was found.
- `is_valid_path` is false for a single-node path.
- `random_path` may revisit nodes, and a path it returns has at least one link even when source == target.
- A tournament larger than the population is the `random.sample` error of the source, so it is an `Err` result rather than a precondition.
