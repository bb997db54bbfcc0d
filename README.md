# networks — a verified model of the graph generator

`networks.go` grows a directed graph of `numAgents` agents under one of three
linking strategies:

- **Random linking.** In every time step, each node whose coin falls below `p` links to a uniformly drawn target.
- **Preferential attachment.** Each new node draws `edgesPerStep` distinct earlier nodes by a walk over the cumulative degree and links to them.
- **Homophily.** Node `i` sits in group `i % K`. Each node draws a target and links with probability `pIn` when the target is in its own group, `pOut` otherwise.

All three strategies write one edge store, keyed by the ordered pair `"i_j"`. Random and homophily runs go through the insert-or-increment: forming a pair again increments the weight of its record when weighting is on, and never adds a second record. Preferential attachment writes the same map with a plain store (networks.go:115). `loadConfig` fills zero fields with defaults, and `main` dispatches on the strategy name and flattens the store into the edge list written to `network.json`. `visualize.go` turns that list into DOT text.

This Dafny project models those pieces, file by file:

| file | module | models |
|---|---|---|
| `graph.dfy` | `Graphs` | The edge store as a class (`Graph`) with its upsert, plain store, group assignment and flattening. The `Upserted` specification, the `n·(n−1)` edge bound, and the decoding of an edge list back into a store. |
| `steps.dfy` | `Steps` | The shared time-step structure of the random and homophily runs, as a pure fold over per-node choices. The per-record weight semantics over a whole run, and the per-step "edges added" counts. |
| `random.dfy` | `RandomLinking` | `randomSimulation`: its per-step and per-run methods, proved equal to the fold. |
| `homophily.dfy` | `HomophilyLinking` | `homophilySimulation`: the group assignment, then the same fold with the group-dependent probability. |
| `preferential.dfy` | `PreferentialAttachment` | `preferentialAttachmentSimulation` on a `degree` array: the degree total, the cumulative walk, the target loop, the linking of each new node, and the invariants over the whole run. |
| `config.dfy` | `Config`, `Driver` | `loadConfig`'s defaults, the strategy switch with its fallback to random, and the run-and-flatten of `main`. |
| `dot.dfy` | `Dot` | The DOT text builder of `visualize.go`, proved equal to a line-by-line specification. Splitting its text into lines gives that specification back. |

Randomness is an explicit input, so every run is a deterministic function of its draws:

- **Random and homophily runs** take one row of `Draw(uniform, target)` per time step and one draw per node. `uniform` stands for `rand.Float64()` and `target` for `rand.Intn(numAgents)`.
- **Preferential attachment** takes an oracle `rng(k, bound)` for its `k`-th `rand.Intn(bound)`, plus a budget of draws. The target loop of networks.go:98-108 only ends once `edgesPerStep` distinct targets have been drawn. With all degrees zero, only `r = 0` selects anything, and it selects node 0. So for `edgesPerStep >= 2` the first new node never finishes: the source loops for ever.
  - A node's target loop stops at the first draw that completes its targets, or when the budget is spent (`ChooseTargets`, `StopAtFirst`). In the second case the node is not linked, the run stops and reports `completed == false`.
  - A run that is not completed has used all `maxDraws` draws, and the node it stopped at drew fewer than `edgesPerStep` distinct targets (`AddNode`, `PreferentialAttachmentSimulation`).
  - `PreferentialAttachmentSimulation` proves that a run with `edgesPerStep >= 2` and at least one new node never completes.

Three details of networks.go that the model follows:

- **Direct store.** Preferential attachment writes its edges with a plain map store (networks.go:115), not through the upsert. Its targets are distinct and the new node has no edges yet, so both give the same store (`Graph.Store`).
- **Groups are not clamped.** The homophily group count is used as given (networks.go:138). `i % K` is Go's truncating remainder (`GoRem`), and `K == 0` makes Go panic, so the model requires `K != 0`.
- **Zero-degree fallback.** The fallback `totalDegree = newNode` (networks.go:94-96) does not make the draw uniform over the existing nodes. With `cum >= r`, only the draw `r = 0` selects anything, and it selects node 0 (`ZeroFallback`).

## Model

| member | source | states |
|---|---|---|
| Graphs.Upserted | networks.go:55-71 | A first formation stores the pair with weight 1 (weighting on) or 0 (off). A repeat adds 1 only when weighting is on. No other record changes, and the store grows by one record exactly when the pair was new. |
| Graphs.Graph.constructor | networks.go:43-46 | A fresh graph has the given node count, no edges and no groups. |
| Graphs.Graph.Upsert | networks.go:55-71 | The in-place insert-or-increment leaves the store equal to `Upserted`. `created` is true exactly when the pair was new, and the groups are untouched. |
| Graphs.Graph.Store | networks.go:115-119 | Preferential attachment's plain write of one record, leaving the groups untouched. |
| Graphs.Graph.AssignGroups | networks.go:137-139 | After the loop, the group map is `i ↦ i % K` for every node, and the edges are unchanged. |
| Graphs.GoRem | networks.go:138 | Go's `%`: equal to the Euclidean remainder for `a >= 0`; for `a < 0` it is that remainder shifted down by `abs(b)` unless it is 0, so its sign follows `a`. |
| Graphs.GroupMap | networks.go:137-139 | Exactly the nodes `0 .. n-1` get a group, each in `[0, abs(K))`. |
| Graphs.EdgeCountBound | networks.go:35-39 | A store with no self-loops, whose ends are all nodes, has at most `n·(n−1)` records. |
| Graphs.Graph.EdgeList | networks.go:249-252 | The flattened list has one record per stored pair, with its weight, and no pair twice. Its length is the store's size, and decoding the list gives the store back. |
| Steps.StepEffect | networks.go:49-72 | In one step a record changes only if its source node chose its target, and then by exactly one insert-or-increment. Every other record is kept. |
| Steps.RunWeights | networks.go:47-75 | Over a run, a pair is stored exactly when it was formed at least once. Its weight is the number of formations with weighting on, and 0 with it off. |
| Steps.StoredWasChosen | networks.go:47-75 | Every stored pair was chosen by its source in some step. |
| Steps.NoChoiceNoEdges | networks.go:47-75 | A run in which no node ever chooses anything leaves the store empty. |
| Steps.StepGrows | networks.go:49-72 | A step never loses a record and adds at most one per node. |
| Steps.GainsAt | networks.go:48-74 | Entry `s` of the per-step counts is step `s`'s growth of the store and is never negative: a step only adds records. That the loop's own `edgesAdded` equals this growth is proved by `RandomTimeStep` and `HomophilyTimeStep`. |
| Steps.GainsSum | networks.go:48-74 | The logged per-step counts add up to the number of stored edges. |
| RandomLinking.RandomChoice | networks.go:50-54 | A node links exactly when its coin falls below `p` and its drawn target is not itself; it then links to that target. A self-target is dropped, not redrawn. |
| RandomLinking.RandomRunWellFormed | networks.go:50-54 | Every edge of a random run joins two distinct agents. There are at most `n·(n−1)` of them. |
| RandomLinking.RandomRunWeights | networks.go:56-69 | Weights are 0 with weighting off. With it on, each weight is the number of formations of its pair, at least 1. |
| RandomLinking.ZeroProbabilityNoEdges | networks.go:50 | With `p <= 0` no coin succeeds and no edge is ever formed. |
| RandomLinking.RandomTimeStep | networks.go:48-74 | One step's nested loop leaves the store equal to the fold of that step's choices. `edgesAdded` is the growth in stored edges. |
| RandomLinking.RandomSimulation | networks.go:42-77 | The whole run yields the store of the run fold and an empty group map. The logged counts are the per-step gains. |
| HomophilyLinking.HomophilyChoice | networks.go:143-155 | A self-target is dropped before any coin. Otherwise the node links to its target exactly when the coin falls below `pIn` (same group, `GoRem(i, K) == GoRem(j, K)`) or `pOut` (different groups). |
| HomophilyLinking.HomophilyRunWellFormed | networks.go:142-146 | Every edge of a homophily run joins two distinct agents. There are at most `n·(n−1)` of them. |
| HomophilyLinking.SameGroupOnly | networks.go:149-155 | With `pIn = 1` and `pOut = 0`, every stored edge joins two nodes of the same group. |
| HomophilyLinking.HomophilyRunWeights | networks.go:156-169 | Weights are 0 with weighting off. With it on, each weight is the number of formations of its pair, at least 1. |
| HomophilyLinking.HomophilyTimeStep | networks.go:141-175 | One step leaves the store equal to the fold of that step's choices and never changes the groups. `edgesAdded` is the growth in stored edges. |
| HomophilyLinking.HomophilySimulation | networks.go:130-177 | Groups are `i % K`, assigned before any step and never changed. The store is that of the run fold, and the logged counts are the per-step gains. |
| PreferentialAttachment.FirstReaching | networks.go:100-107 | The walk selects the first node whose cumulative degree reaches `r`, or nothing when no node below `newNode` reaches it. |
| PreferentialAttachment.PickZero | networks.go:100-107 | A draw `r <= 0` selects node 0. |
| PreferentialAttachment.PickAlways | networks.go:90-107 | A draw no larger than the true degree total always selects some node. |
| PreferentialAttachment.ZeroFallback | networks.go:94-107 | With every earlier degree 0, a draw selects node 0 when it is 0 and nothing otherwise. |
| PreferentialAttachment.Picked | networks.go:98-108 | The targets collected from a range of draws are all nodes below the new node. |
| PreferentialAttachment.StopAtFirst | networks.go:98-108 | The target loop started at a draw stops at the first later draw count at which `m` distinct targets are in, or at the budget when no count reaches `m`. Every count before the stop is short of `m`. |
| PreferentialAttachment.StopAtIs | networks.go:98-108 | Conversely, a draw count at which the targets are complete or the budget is spent, with every earlier count short of `m`, is the stopping point. |
| PreferentialAttachment.StuckStart | networks.go:94-108 | While every earlier degree is 0, no number of draws collects more than one distinct target, and that target is node 0. |
| PreferentialAttachment.Bumped | networks.go:120-121 | `degree[i]++` adds one at `i` and leaves every other entry unchanged. |
| PreferentialAttachment.DegreesStep | networks.go:115-121 | Storing a new edge and incrementing the degree of both its ends keeps each degree equal to that node's incident-edge count. The degree sum stays twice the edge count. |
| PreferentialAttachment.AttachedGrow | networks.go:109-122 | Linking the new node to one more target adds exactly that one record. |
| PreferentialAttachment.AttachedShaped | networks.go:109-122 | After linking, every edge still leaves a linked node for a strictly lower node, with the initial weight. |
| PreferentialAttachment.AttachedOutTargets | networks.go:109-122 | After linking, the new node's out-targets are exactly its target set. No other node's out-targets change. |
| PreferentialAttachment.PickTarget | networks.go:100-107 | The `cum` loop returns exactly the node `Pick` specifies, or reports that none was found. |
| PreferentialAttachment.TotalDegree | networks.go:90-93 | The loop computes the degree sum of the nodes below `newNode`. |
| PreferentialAttachment.DrawOnce | networks.go:99-107 | One draw adds the node it selects, if any, to the targets: the set grows by at most one node. |
| PreferentialAttachment.ChooseTargets | networks.go:97-108 | The targets are the set of nodes the consumed draws selected, and never more than `m` of them. The loop stops at the `StopAt` point: no earlier draw count had `m` targets, and if fewer than `m` were collected the draw budget is spent. |
| PreferentialAttachment.Link | networks.go:110-121 | One edge `(newNode, t)` is written with the initial weight, and both degrees go up by one. |
| PreferentialAttachment.Attach | networks.go:109-122 | Linking to every target, in any order, gives the `Attached` store and keeps the degrees matching the edges. |
| PreferentialAttachment.NoEdgeDegrees | networks.go:86-88 | Degrees match an empty graph exactly when they are all zero. |
| PreferentialAttachment.LinkedStep | networks.go:89-124 | Linking a new node to its `m` targets keeps the run invariant one node further on. The invariant: edge shape, matching degrees, `m` out-edges per linked node, and no edges when `m <= 0`. |
| PreferentialAttachment.FirstNodeStuck | networks.go:94-108 | For `m >= 2`, the first new node's draws collect at most one distinct target. |
| PreferentialAttachment.ShapedWellFormed | networks.go:115-119 | A preferential-attachment graph has no self-loops, has only nodes as ends, and has at most `n·(n−1)` edges. |
| PreferentialAttachment.AddNode | networks.go:89-123 | One new node: degree total with the fallback (`DrawBound`), the target loop, and the links. `next` is the loop's stopping draw and `targets` the nodes picked by the draws up to it. The node is linked exactly when there are `m` of them, and then its new store is `Attached` to exactly those targets, the run invariant moves one node on and the logged count is `m`. Otherwise nothing changes, the budget is spent and the draws up to it picked fewer than `m` targets. It is never linked when `m >= 2` and always linked when `m <= 0`. |
| PreferentialAttachment.LinkNewNodes | networks.go:89-124 | The loop over the new nodes: the run invariant holds up to the first node not linked, the counts are one `max(m, 0)` per linked node, all nodes are linked when completed, and an incomplete run has spent the budget. |
| PreferentialAttachment.PreferentialAttachmentSimulation | networks.go:80-126 | Edges leave a new node for a lower one and carry the initial weight, never incremented. Degrees count incident edges and sum to 2 × edges. A completed run gives each new node exactly `m` distinct targets. `numAgents <= m+1` or `m <= 0` gives no edges. `m >= 2` with a new node never completes. The logged per-node counts are each `max(m, 0)`, one per linked node. A run that is not completed has used all `maxDraws` draws. |
| Config.LoadDefaults | networks.go:195-215 | The field-by-field overwrite yields `Defaulted` of the decoded configuration. |
| Config.DefaultsFill | networks.go:195-215 | Zero counts become 100, 10, 1 and 2, and zero probabilities become 0.05, 0.1 and 0.01. Non-zero fields are kept, and no field is zero afterwards. |
| Config.DefaultsIdempotent | networks.go:195-215 | Defaulting twice is defaulting once. |
| Config.StrategyOf | networks.go:234-244 | "preferential_attachment" and "homophily" select those strategies. Every other name, recognised or not, selects random linking. |
| Driver.RunSimulation | networks.go:233-252 | The run keeps the defaulted node count. The written list has one record per pair. Random: the random store, no groups. Homophily: the homophily store, groups `i % K`. Preferential attachment: the shape invariant, `m` out-edges per node when completed, and all `maxDraws` draws used when not. |
| Dot.NatRoundTrip | visualize.go:43 | Reading back the decimal a `%d` writes for a natural number gives the number. |
| Dot.IntRoundTrip | visualize.go:43-50 | `%d` of any integer is an optional minus sign followed by digits. Reading it back gives the integer. |
| Dot.NoSpecialInInt | visualize.go:43-50 | A printed number contains no line break and no bracket. |
| Dot.Render | visualize.go:40-53 | The text of each line: the header, `  i;` for a node (`NodeDecl`), `  s -> t [label="w"];` for an edge of positive weight (`LabelledArc`), `  s -> t;` otherwise (`PlainArc`), and the closing brace. |
| Dot.NodeDeclFields | visualize.go:43 | A node line is two spaces, the node's decimal and `;` with the line break. Its number reads back as the node. |
| Dot.ArcEnds | visualize.go:47-50 | An edge line starts with two spaces, the source, ` -> ` and the target. Both numbers read back as the nodes. |
| Dot.ArcLabel | visualize.go:47-51 | After the target comes ` [label="w"];` when the weight is positive, with `w` reading back as the weight, and `;` otherwise. |
| Dot.EdgeLabelled | visualize.go:47-51 | An edge line carries a label exactly when the edge's weight is positive. |
| Dot.NodeLines | visualize.go:42-44 | Node lines `0 .. n-1`, in increasing order. |
| Dot.EdgeLines | visualize.go:46-52 | One edge line per edge, in list order. |
| Dot.DotLines | visualize.go:40-53 | The header, node lines `0 .. numAgents-1` (none when `numAgents <= 0`), the edge lines in order, then the closing brace: `2 + max(numAgents, 0) + |edges|` lines. |
| Dot.DotFraming | visualize.go:40-53 | The text begins with `digraph G {\n` and ends with `}\n`. |
| Dot.RenderIsLine | visualize.go:40-53 | Each written line ends with its only line break. |
| Dot.DotLayout | visualize.go:40-53 | Splitting the text at line breaks gives back exactly the `DotLines` lines, in order. |
| Dot.BuildDot | visualize.go:40-53 | The two `+=` loops build exactly the concatenation of `DotLines`. |

## Left out

- **I/O.** File and JSON I/O (reading `config.json` and `network.json`, writing `network.json` and `network.dot`) and the external `dot` process are not modelled. They are outside the generator.
- **Randomness.** The random source (`rand.Seed`, `rand.Float64`, `rand.Intn`) is replaced by draw inputs. Random and homophily runs take a `Draw` per node and step, with a real `uniform` in `[0, 1)` and a `target` in `[0, numAgents)`; preferential attachment takes an oracle. Probabilities and `float64` values are modelled as reals.
- **Progress logging.** The `fmt.Printf` progress lines are a logging side effect. The counts they print are returned as `added`: per time step for random and homophily runs, per linked new node for preferential attachment.
- **Unused fields.** `Dynamic`, `OutputFormat`, and the `timeSteps` parameter of preferential attachment are unused by the generator.
- **Go map iteration order.** This covers the flattening and `for target := range targets`. `Graph.EdgeList` and `PreferentialAttachment.Attach` take keys in an unspecified order, and their contracts hold for every order.
- **RandomLinking.RandomSimulation: target draws.** Each `Draw` row carries a target for every node. The source draws `rand.Intn` only after a successful coin, so the model does not capture how many values the random source consumes.
- **HomophilyLinking.HomophilySimulation: coin draws.** Each `Draw` carries a `uniform` for every node. The source draws `rand.Float64` only after a target that is not the node itself (networks.go:143-155), so the model does not capture how many values the random source consumes.
- **64-bit integers.** Integers are unbounded. Edge counts, step counters and degrees stay far below 2^63 in any run that fits in memory; the one place a configuration value can wrap is `edgesPerStep + 1`, below.
- PreferentialAttachment.PreferentialAttachmentSimulation: `edgesPerStep + 1` does not wrap. With `edgesPerStep` equal to 2^63 - 1, Go's `initialNodes` (networks.go:86) wraps to -2^63, the fallback total becomes negative and `rand.Intn` panics; the model instead starts past `numAgents` and completes with no edges.
- PreferentialAttachment.PreferentialAttachmentSimulation: `numAgents >= 0` is required. For a negative `num_agents`, which `loadConfig` keeps, `make([]int, numAgents)` (networks.go:87) panics; the panic is not modelled.
- Driver.RunSimulation: the preferential-attachment branch requires a non-negative `numAgents`, for the same panic at networks.go:87. Random and homophily runs accept any node count, as the source does.
- **PreferentialAttachment.PreferentialAttachmentSimulation: budget.** The source's unbounded target loop becomes a finite draw budget with a `completed` flag. Results about out-degrees are stated for completed runs.
- PreferentialAttachment.PreferentialAttachmentSimulation: the run-level contract does not chain the nodes' draws. `AddNode` ties each node's stopping draw, targets and links to the draws it was given, but the run's contract only says that an incomplete run has used all `maxDraws` draws. It does not say that the run went on to the next node after every linked one: a run that stopped at an earlier node and reported all draws used would also meet it. A fold over the draws of the whole run, stated for the run, is beyond the verifier's resource limit.
- PreferentialAttachment.LinkNewNodes: the same gap as the line above, since this is the loop that contract comes from. Only `AddNode` ties a node's stop, targets and links to its draws. The loop's contract gives the run invariant up to the first node not linked, and says that an incomplete run has used all `maxDraws` draws. It does not say that the loop stopped at the first node whose draws ran out, so a loop that stopped at the first new node and reported the budget spent would also meet it.
- Driver.RunSimulation: the preferential-attachment branch inherits that gap. Its edges are tied to the draws only node by node, through `AddNode`, and `completed` false is only known to come with all `maxDraws` draws used, not with a node whose draws actually ran out.
- **PreferentialAttachment.PreferentialAttachmentSimulation: oracle range.** The oracle is not required to return values in `[0, totalDegree)`. The contract holds for any draws.
- **HomophilyLinking.HomophilySimulation: `K != 0`.** It requires `K != 0` even when `numAgents <= 0`. In that case Go never evaluates `i % K` and does not panic.
- **Driver.RunSimulation: homophily with negative `K`.** For a negative `K`, groups are `i % K` as Go computes them, which lie in `[0, abs(K))`. No clamping is modelled, because the code has none.
