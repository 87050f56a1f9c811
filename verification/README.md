# Verified models of Atlas's algorithmic cores

Dafny models of the deterministic algorithms that Atlas's answers rest on, with proofs of what their callers rely on.
`dafny verify dfyconfig.toml` checks the whole project.

| topic | files |
|---|---|
| Label propagation: the dictionary loop over ordered nodes, a specification over node positions, convergence, renaming | `LabelPropagation`, `LabelSpec`, `LabelConvergence`, `LabelProperties`, `LabelRerun`, `Grouping` |
| Import-rule checking: the budgeted search with its trace and caches, rule reports, report deltas, path selectors | `ImportGraph`, `SearchInvariant`, `ImportSearch`, `SearchBudget`, `RuleReport`, `ReportMeaning`, `RuleEvaluation`, `RuleDelta`, `Selectors` |
| Partition metrics: canonical partitions, union-find with path halving, modularity, adjusted Rand index, graph projection | `Partitions`, `UnionFind`, `ModularityLaws`, `Quality`, `Ranks`, `RandIndex`, `Stability`, `Projection` |
| Patches: hunk grammar and parser, exact application, the inverse patch | `HunkGrammar`, `HunkParser`, `PatchApply`, `PatchInverse` |
| Span accounting: merging intervals, byte counts | `SpanUnion`, `SpanMetrics` |
| Rate limiting over a sliding window | `RateLimit` |
| Shared: results, strict orders and `sorted`, walks in graphs | `Wrappers`, `Ordering`, `Walks` |

Code that changes state step by step is a method or a class, proved against a specification; the theorems are lemmas about
that specification.
The search object `Run`, its `Trace`, the union-find array and the call-time deque are classes with the source's fields.
Ghost fields carry what the proof needs (discovery depths, ranks, the history of calls) and nothing the program computes.

What the outside world answers is a parameter: the graph database is a record of total functions (`imports`,
`entityPath`, `dynamicCall`, the observations); `relative` stands for `ev.relative_path`; `ids` for the two git blob ids of
some bytes; `valid` for the type checks on a node; `now` for the monotonic clock; `less` for the order of the nodes.

Three places where the code parts from what is said or expected of it:

* `label_propagation.py` says that convergence is not guaranteed. On a symmetric graph it is: n times the number of
  edges whose ends agree, minus the sum of all labels, rises with every change, so at most n·m + n(n-1)/2 changes can happen
  (`PropagationConverges`, `ChangesAreBounded`). Without symmetry the comment is right: a one-way triangle never settles
  (`OneWayNeverStable`).
* A patch may carry a "+" line of empty content marked as lacking its newline. The parser admits it and it adds no bytes, so
  the swapped patch expects a line that no file has. `InverseRestores` gives the exact condition for undoing a patch, with
  the two other ways to miss it: a base above the size limit, and a base whose absence does not match a creation.
  `EmptyAdditionIsNotUndone` is an instance of the first.
* `span_metrics.py` takes labels unchecked. One that ends before it starts counts negatively unless an earlier label of its
  file version reaches its start. The label count is right exactly when no label is left over that way
  (`SpanMetrics.Account`); `ReversedLabelMiscounts` is an instance. The other counts are right in any case.

## Model

| member | source | states |
|---|---|---|
| LabelPropagation.CountLabels | mcp-server/src/atlas_aci/label_propagation.py:81-84 | the counting loop ends with, for every label, the number of neighbours that carry it |
| LabelPropagation.Adopt | mcp-server/src/atlas_aci/label_propagation.py:81-89 | the label taken is carried by some neighbour, no label is carried by more, and among equals it is the smallest |
| LabelPropagation.Visit | mcp-server/src/atlas_aci/label_propagation.py:77-92 | visiting a node updates the dictionary exactly as the index-space update does, isolated nodes included, and `changed` reports a difference |
| LabelPropagation.OnePass | mcp-server/src/atlas_aci/label_propagation.py:76-92 | one asynchronous pass over the dictionary is one pass of the specification, and `changed` holds exactly if it moved a label |
| LabelPropagation.Passes | mcp-server/src/atlas_aci/label_propagation.py:75-94 | the capped loop computes the specified propagation, with any cap (none for a negative one) |
| LabelPropagation.Renumber | mcp-server/src/atlas_aci/label_propagation.py:96-106 | the ids group the nodes as the labels do and are 0, 1, 2, ... by smallest member |
| LabelPropagation.LabelPropagation | mcp-server/src/atlas_aci/label_propagation.py:46-106 | the whole function: every node gets the number, by smallest member, of the group that propagation from distinct labels leaves it in |
| LabelSpec.FixedPointIsStable | mcp-server/src/atlas_aci/label_propagation.py:77-94 | a pass changes nothing exactly when every node with a neighbour holds the smallest most frequent label around it |
| LabelSpec.PassMeans | mcp-server/src/atlas_aci/label_propagation.py:76-92 | one pass is the visits to all nodes in order, each node with a neighbour taking the smallest most frequent label it then sees |
| LabelSpec.EarlyStopIsUnfelt | mcp-server/src/atlas_aci/label_propagation.py:75-94 | stopping at a pass without a change gives what exactly max_iterations passes give |
| LabelConvergence.ChangeRaisesPotential | mcp-server/src/atlas_aci/label_propagation.py:89-92 | on a symmetric graph every label change raises n times the agreeing edges minus the label sum (here doubled) |
| LabelConvergence.ChangesAreBounded | mcp-server/src/atlas_aci/label_propagation.py:37-43 | at most n·m + n(n-1)/2 label changes happen in a run of any length |
| LabelConvergence.Converge | mcp-server/src/atlas_aci/label_propagation.py:37-43 | on a symmetric graph the loop without its cap terminates, in a stable labelling |
| LabelConvergence.PropagationConverges | mcp-server/src/atlas_aci/label_propagation.py:37-43 | a cap above the bound is never felt: the capped run equals the uncapped one and is stable |
| LabelConvergence.EarlyStopIsStable | mcp-server/src/atlas_aci/label_propagation.py:93-94 | at any cap, a run that one more pass would not change ends stable, symmetric graph or not |
| LabelProperties.CommunityIsConnectedTo | mcp-server/src/atlas_aci/label_propagation.py:46-106 | on a symmetric graph two nodes with equal ids are joined by a walk, at any cap |
| LabelProperties.RenamingKeepsIds | scripts/verify-probe-verdict.py:409-422 | renaming the nodes by an order-preserving map leaves every id unchanged, so the rerun on integer indices must agree with the run on named nodes |
| LabelProperties.OneWayNeverStable | mcp-server/src/atlas_aci/label_propagation.py:37-43 | on a one-way triangle no number of passes reaches a stable labelling: symmetry is needed |
| Grouping.OrderedGroups | mcp-server/src/atlas_aci/label_propagation.py:96-103 | the groups partition the nodes by label, each ascending, ordered by first member |
| Grouping.NumberingUnique | mcp-server/src/atlas_aci/label_propagation.py:100-106 | the numbering by smallest member depends on the grouping alone, not on the label values |
| LabelRerun.RerunLpa | scripts/verify-community-experiment.py:652-658 | the rerun returns the canonical partition of the labels after 100 passes on the edge list's graph |
| LabelRerun.RerunStaysConnected | scripts/verify-community-experiment.py:652-658 | two nodes of one rerun community are connected in the graph |
| ImportSearch.Trace.Chain | mcp-server/src/atlas_aci/architecture/checker.py:214-222 | following the parent pointers terminates and gives the tree's steps from the source to the node |
| ImportSearch.Run.EntityPath | mcp-server/src/atlas_aci/architecture/checker.py:281-290 | the memo cache always repeats the database, and each entity is queried once |
| ImportSearch.Run.Adjacency | mcp-server/src/atlas_aci/architecture/checker.py:305-316 | the same for a file's import rows |
| ImportSearch.Run.DynamicCall | mcp-server/src/atlas_aci/architecture/checker.py:318-323 | the same for the dynamic-call probe, a missing call included |
| ImportGraph.ClassifyMeans | mcp-server/src/atlas_aci/architecture/checker.py:325-333 | a file is admissible exactly if it is observed, indexed and in python; otherwise `file_not_indexed` if it is not observed or not indexed, and `import_language_unsupported` if it is indexed in another language |
| ImportGraph.RowMeans | mcp-server/src/atlas_aci/architecture/checker.py:363-370 | a row is `unresolved_import` exactly if its resolution is neither EXTRACTED nor INFERRED or it has no target, and otherwise carries its target file's refusal, if any |
| ImportGraph.ImportMeans | mcp-server/src/atlas_aci/architecture/checker.py:363-370 | a step is an import exactly if a stored resolved row names the supported file |
| ImportSearch.Run.Charge | mcp-server/src/atlas_aci/architecture/checker.py:355-362 | with a row of a visited file left, the row is charged to the search and to the run, or the search stops with exactly that budget spent |
| ImportSearch.Run.Follow | mcp-server/src/atlas_aci/architecture/checker.py:371-391 | an admissible import keeps the search invariant: depth check, recording a target, visiting a new file or stopping with a justified reason |
| ImportSearch.Run.ExamineRow | mcp-server/src/atlas_aci/architecture/checker.py:363-391 | a row becomes the boundary it is, or is followed |
| ImportSearch.Run.ExamineRows | mcp-server/src/atlas_aci/architecture/checker.py:351-391 | without a stop, every row and the dynamic call of a file are accounted for and the edge counter has grown by its number of rows; a stop on an edge budget leaves a row over |
| ImportSearch.Run.ExamineFile | mcp-server/src/atlas_aci/architecture/checker.py:350-391 | a file examined without a stop is done, the edge counter stands at the rows of the files done, and nothing known is lost |
| ImportSearch.Run.ExamineLevel | mcp-server/src/atlas_aci/architecture/checker.py:348-394 | without a stop exactly the files up to the current depth are done, each examined once, and at the depth limit nothing is left to follow |
| ImportSearch.Run.ExamineLevels | mcp-server/src/atlas_aci/architecture/checker.py:345-397 | the level loop establishes the search result at any budget, with the edge counter tied to the rows of the files visited |
| ImportSearch.Run.Traverse | mcp-server/src/atlas_aci/architecture/checker.py:335-397 | at any budget each found chain is a real, shortest, nonempty one, everything within the depth reached is known, and a stop names a bound reached and something it kept out (a file, a target, a row); with no stop, files, targets, boundaries and edge count are exactly the reachable ones, also as read off the stored records; the search completes exactly when what the source reaches fits every bound; every visited file is indexed python, and any other source yields its one boundary |
| SearchInvariant.ShortChainVisited | mcp-server/src/atlas_aci/architecture/checker.py:347-394 | every file within the finished depths is discovered at its exact distance or less |
| SearchInvariant.ShortChainFound | mcp-server/src/atlas_aci/architecture/checker.py:379-383 | a target reached within the finished depths has been found, the source itself on a cycle included |
| SearchInvariant.FindKeeps | mcp-server/src/atlas_aci/architecture/checker.py:379-383 | recording the chain to a target keeps the invariant: the chain is a shortest one |
| SearchInvariant.VisitKeeps | mcp-server/src/atlas_aci/architecture/checker.py:389-391 | discovering a file keeps the tree, the distances and the layers |
| SearchInvariant.FinishedIsExact | mcp-server/src/atlas_aci/architecture/checker.py:347-397 | when all visited files are examined, the result is exact in both directions |
| SearchInvariant.ExactIsStored | mcp-server/src/atlas_aci/architecture/checker.py:347-397 | the files visited are closed under the stored imports of indexed python files and all reached by them, the targets found are the imported ones, and the boundaries are exactly those of the visited files' records |
| SearchInvariant.CompletesIffFits | mcp-server/src/atlas_aci/architecture/checker.py:335-397 | no stop exactly when the reachable files are at most max_visited_nodes, their rows fit both edge budgets, and every file and imported target lies within max_depth |
| SearchInvariant.DepthsComplete | mcp-server/src/atlas_aci/architecture/checker.py:345-397 | even a stopped search knows all files and targets within its depth, and all boundaries of the files before it |
| SearchInvariant.DepthStopJustified | mcp-server/src/atlas_aci/architecture/checker.py:371-378 | a `depth_limit` stop shows a new file or target at distance exactly max_depth + 1 |
| SearchInvariant.NodeStopJustified | mcp-server/src/atlas_aci/architecture/checker.py:386-388 | a `visited_node_limit` stop leaves a reachable file unvisited |
| SearchInvariant.RowIsLeft | mcp-server/src/atlas_aci/architecture/checker.py:355-362 | a row of a visited file not done is not yet counted, which is what an edge stop certifies |
| RuleEvaluation.VisitSource | mcp-server/src/atlas_aci/architecture/checker.py:482-500 | one source adds its true violations, the boundaries it leads to, its stop entry with every field true, and its counts; unstopped it adds all of them; it is stopped exactly when what it reaches exceeds a bound |
| RuleEvaluation.EvaluateSources | mcp-server/src/atlas_aci/architecture/checker.py:478-500 | every source is searched in order unless the run's edge budget is spent to the last row; the reasons are those of the stops and of that break; all complete exactly when the sources fit the budget one after another |
| SearchBudget.FitsStep | mcp-server/src/atlas_aci/architecture/checker.py:478-487 | the sources so far have all completed exactly when they fit the run's budget in turn; one more search keeps this |
| SearchBudget.SpentFits | mcp-server/src/atlas_aci/architecture/checker.py:479-481 | once the run's budget is spent the remaining sources cannot fit |
| RuleEvaluation.EvaluateSelected | mcp-server/src/atlas_aci/architecture/checker.py:474-500 | at most max_sources_per_rule sources are searched, in order, `source_limit` and `total_examined_edge_limit` stand exactly for those that were not |
| RuleEvaluation.Evaluate | mcp-server/src/atlas_aci/architecture/checker.py:460-536 | the report passes its validator and is true in every field at any limits: witnesses, pairs, stops, boundaries, counts, each of the eleven reasons and each of the four outcomes; a budget reason is present exactly when the selection or what it reaches exceeds a bound, and the rule is satisfied exactly when none is exceeded, both selections are nonempty, nothing violates and every source is fully resolved |
| RuleEvaluation.AssembledValid | mcp-server/src/atlas_aci/architecture/checker.py:773-822 | every assembled report passes `_validate_rule`, whatever the limits |
| ReportMeaning.ValidatorMeans | mcp-server/src/atlas_aci/architecture/checker.py:773-822 | the validator accepts exactly the reports whose outcome, counts, reasons, orders and witness shapes are right |
| ReportMeaning.ReasonsAreRight | mcp-server/src/atlas_aci/architecture/checker.py:501-510 | violated exactly with pairs, incomplete exactly with no pair and a budget reason, unknown exactly with neither but some reason, satisfied exactly with none; and each reason is there exactly for its selection, limit, stop or boundary |
| RuleEvaluation.AssembledTrue | mcp-server/src/atlas_aci/architecture/checker.py:501-536 | the report made from the gathered searches is true: the first pairs and boundaries are shown of exactly those counted, each stop entry is what its search came to, and each reason has its stop, boundary, selection or limit |
| RuleReport.VerdictIsTrue | mcp-server/src/atlas_aci/architecture/checker.py:501-510 | `violated` has a real violation, an exhaustive report lists every violation, and `satisfied_within_scope` means none exists and everything reachable is resolved |
| RuleReport.BudgetFreeIsComplete | mcp-server/src/atlas_aci/architecture/checker.py:478-509 | without a budget reason the pairs counted are exactly the violations of the admissible sources, even when boundaries remain |
| ReportMeaning.VerdictIsExact | mcp-server/src/atlas_aci/architecture/checker.py:503-510 | without a budget reason, violated exactly if a supported source violates; satisfied exactly if no budget was exceeded, both selections are nonempty, nothing violates and everything reached is resolved |
| ReportMeaning.ResolvedMeans | mcp-server/src/atlas_aci/architecture/checker.py:325-333 | below a fully resolved source every file is indexed python without a dynamic import, and every stored row is EXTRACTED or INFERRED with a target in such a file |
| RuleDelta.Delta | mcp-server/src/atlas_aci/counterfactual/analyze.py:474-512 | reports of different length are refused; otherwise one entry per pair of rules in order |
| RuleDelta.Compare | mcp-server/src/atlas_aci/counterfactual/analyze.py:483-511 | one loop iteration makes the entry of the two reports: index, id, outcomes, pair counts, exhaustiveness, the three lists and the reasons, each said of the reports' own fields |
| RuleDelta.ListedPairsAreTrue | mcp-server/src/atlas_aci/counterfactual/analyze.py:462-467 | listed pairs are true violations, and an exhaustive report lists all of them |
| RuleDelta.DeltaIsSound | mcp-server/src/atlas_aci/counterfactual/analyze.py:475-509 | persisting, introduced and resolved are within the true sets even if one side is incomplete, and equal to them when both are exhaustive |
| RuleDelta.DeltaIsConsistent | mcp-server/src/atlas_aci/counterfactual/analyze.py:1116-1124 | lists are null exactly for the side that is not exhaustive, and `complete` means no reasons |
| Selectors.ParsedPrints | mcp-server/src/atlas_aci/architecture/rules.py:143-166 | printing kind and base of a parsed selector gives the text back |
| Selectors.PrintedParses | mcp-server/src/atlas_aci/architecture/rules.py:143-166 | every well-formed kind and base is parsed back from its printed text |
| Selectors.ParseMeans | mcp-server/src/atlas_aci/architecture/rules.py:143-166 | which texts are selectors of each kind, by their segments and characters |
| Selectors.MatchesMeans | mcp-server/src/atlas_aci/architecture/rules.py:175-188 | a tree matches the paths with the base's segments and at least one more, children those with exactly one more, a literal its own path, and two stars all |
| Selectors.BisectLeft | mcp-server/src/atlas_aci/architecture/rules.py:178-182 | binary search gives the point before which all paths are smaller and from which none is |
| Selectors.BlockEnds | mcp-server/src/atlas_aci/architecture/rules.py:182-185 | paths sharing a prefix form one contiguous block |
| Selectors.Select | mcp-server/src/atlas_aci/architecture/rules.py:169-188 | on a sorted universe the result is the ascending list of exactly the matching paths |
| Partitions.ValidIffCanonical | scripts/verify-community-experiment.py:611-633 | validation passes exactly for nonempty ascending communities, ordered by first member, that cover 0..n-1 once each |
| Partitions.ReasonsMean | scripts/verify-community-experiment.py:618-633 | each reason of the validator exactly in its precedence: a node out of range, one listed twice, one missing, an empty or unordered community |
| Partitions.MembershipOf | scripts/verify-community-experiment.py:644-649 | each node gets the last community listing it, 0 if none does |
| Partitions.Canonicalize | scripts/verify-community-experiment.py:636-641 | the result is canonical and groups the nodes by label |
| Partitions.RoundTrip | scripts/verify-community-experiment.py:636-649 | canonicalizing the membership of a canonical partition gives it back |
| Partitions.CanonicalFormsAgree | scripts/verify-community-experiment.py:636-641 | two membership lists have one canonical form exactly when they group alike |
| Partitions.TogetherDetermines | scripts/verify-community-experiment.py:611-633 | canonical partitions that keep the same nodes together are equal |
| UnionFind.Forests.Find | scripts/verify-community-experiment.py:680-684 | path halving terminates at the root, and the trees still stand for the same components |
| UnionFind.Forests.Union | scripts/verify-community-experiment.py:689 | linking the roots merges exactly the two components |
| UnionFind.RedirectKeepsRoots | scripts/verify-community-experiment.py:682 | pointing a node at a higher one of its own tree moves no root |
| UnionFind.LinkMovesOneTree | scripts/verify-community-experiment.py:689 | hanging one root under another changes the root of that tree only |
| UnionFind.ComponentsAreConnectivity | scripts/verify-community-experiment.py:686-689 | after all edges two nodes have one component exactly if a walk along edges joins them |
| Quality.Degrees | scripts/verify-community-experiment.py:600-605 | each entry is the number of edge ends at that node |
| Quality.DegreesCountEnds | scripts/verify-community-experiment.py:675-677 | summing degrees over a community counts the edge ends in it |
| Quality.Totals | scripts/verify-community-experiment.py:690-692 | the community degree sums total 2m, and the internal edges at most m |
| Quality.ModularityBounds | scripts/verify-community-experiment.py:691-692 | the exact modularity lies in [-1/2, 1) for every labelling below k of a graph with an edge |
| ModularityLaws.ShareTotalScaled | scripts/verify-community-experiment.py:690-692 | the sum over the communities of inner edges over m less the squared share of edge ends is (4m·inner - ends squared)/(4m^2) |
| ModularityLaws.WholeIsZero | scripts/verify-community-experiment.py:690-692 | one community of all nodes has modularity 0 |
| ModularityLaws.SingletonsAreNegative | scripts/verify-community-experiment.py:690-692 | singletons of a loop-free graph have the negated sum of squared degrees over 4m^2 |
| Quality.ConnectedIffOneComponent | scripts/verify-community-experiment.py:686-694 | a community's induced subgraph is connected exactly if its members share one component of the intra-community edges |
| Quality.UniteCommunities | scripts/verify-community-experiment.py:686-689 | the edge loop counts each community's inner edges and leaves the forest of the intra-community components |
| Quality.CountDisconnected | scripts/verify-community-experiment.py:694 | the count is the number of communities whose induced subgraph is not connected |
| Quality.SizeStatistics | scripts/verify-community-experiment.py:693-702 | the singleton count, and the largest, median and 90th-percentile sizes as the sizes at their nearest ranks |
| Ranks.SortedAtRank | scripts/verify-community-experiment.py:693-702 | indexing the sorted sizes gives the entry that `rank` entries do not exceed and fewer are below |
| Quality.Quality | scripts/verify-community-experiment.py:668-705 | modularity is the sum of the communities' shares, counted on edges and members, and lies in [-1/2, 1); coverage times m is the number of inner edges; with the size statistics, the community count, and the count and share of communities whose induced subgraph is not connected |
| RandIndex.PairsRefine | scripts/verify-community-experiment.py:714-717 | a refinement keeps fewer pairs together, and as many only if it groups alike |
| RandIndex.CountsGivePairs | scripts/verify-community-experiment.py:714-715 | adding up the pairs over the counter's cells counts the pairs of equal entries |
| RandIndex.BlocksGivePairs | scripts/verify-community-experiment.py:716-717 | the pairs of the community sizes count the pairs a partition keeps together |
| RandIndex.KeptBoth | scripts/verify-community-experiment.py:712-718 | the counts computed are the numbers of node pairs kept together by the one partition, by the other and by both |
| RandIndex.NeverDegenerate | scripts/verify-community-experiment.py:718-722 | distinct groupings never give total = 0 or maximum = expected: the assertion is unreachable |
| RandIndex.IndexBelowOne | scripts/verify-community-experiment.py:719-723 | distinct partitions keep fewer common pairs than half the sum of their own, so they score below 1 |
| RandIndex.AriSymmetric | scripts/verify-community-experiment.py:708-723 | the index does not depend on the order of the two partitions |
| RandIndex.Ari | scripts/verify-community-experiment.py:708-723 | for distinct partitions the value times (A + B)T - 2AB, which is positive, is 2(IT - AB), with A, B, I the node pairs kept together by the one, the other and both, and T all pairs; 1 for equal ones; at most 1, and 1 exactly for equal partitions |
| RandIndex.AriIsOne | scripts/verify-community-experiment.py:708-723 | any value of the index is at most 1, and 1 exactly for equal partitions |
| RandIndex.AriIsZero | scripts/verify-community-experiment.py:719-723 | the value is 0 exactly if IT = AB, as many common pairs as chance would have it |
| Stability.ScorePairs | scripts/verify-community-experiment.py:728-733 | all pairwise indices in loop order; `identical_pairs` counts exactly those equal to 1 |
| Stability.Stability | scripts/verify-community-experiment.py:726-744 | the pairwise values with minimum, mean and identical share, the number of distinct partitions, and the index of each against the label-propagation partition |
| Stability.SummaryMeans | scripts/verify-community-experiment.py:728-742 | the pairwise values list all pairs of seeds in loop order, the identical ones are the pairs of equal partitions, and the mean times the count is the sum and lies between the minimum and 1 |
| Stability.SumLaws | scripts/verify-community-experiment.py:738 | the sum is additive over concatenation and the value itself for one entry |
| Stability.StableIffOnePartition | scripts/verify-community-experiment.py:726-744 | the minimum is 1 exactly when one distinct partition remains, that is when all are equal |
| Projection.ProjectionIsCanonical | scripts/verify-community-experiment.py:552-589 | tables that list the same nodes and join the same ones, permuted or with repeated, turned or looped edges, project alike |
| Projection.ProjectionKeepsGraph | scripts/verify-community-experiment.py:582-589 | a projection joins exactly the distinct nodes the input joins, in canonical order |
| Projection.ProjectionIsIdempotent | scripts/verify-community-experiment.py:552-589 | projecting a projection changes nothing |
| Projection.ProjectMeans | scripts/verify-community-experiment.py:561-588 | accepted exactly with few enough nodes, valid distinct nodes, edges that name them and between one and max_edges joined pairs; each rejection exactly in its order |
| HunkGrammar.HeaderReads | mcp-server/src/atlas_aci/counterfactual/patch_input.py:65-67 | every printed hunk header, counts of 1 written or not, any tail, is read back |
| HunkGrammar.HeaderIsForm | mcp-server/src/atlas_aci/counterfactual/patch_input.py:65-67 | a line is read as a header exactly when it has the header's form, leading zeros included |
| HunkGrammar.ValueLaws | mcp-server/src/atlas_aci/counterfactual/patch_input.py:248-253 | a number is ten times its leading digits plus the last |
| HunkParser.Marker | mcp-server/src/atlas_aci/counterfactual/patch_input.py:231-241 | a marker closes the side or sides of the last line, and is refused before any line or after another marker |
| HunkParser.HunkAtIsGrammar | mcp-server/src/atlas_aci/counterfactual/patch_input.py:7-27 | parsing gives a hunk exactly when the lines spell it: old_count and new_count lines, a change, markers only at the end of a side |
| HunkParser.EncodedBytes | mcp-server/src/atlas_aci/counterfactual/patch_input.py:18-19 | the bytes of each body line and of the marker behind it |
| HunkParser.RenderedParses | mcp-server/src/atlas_aci/counterfactual/patch_input.py:18-26 | every rendered well-formed hunk is parsed back, consuming exactly its lines |
| HunkParser.ParseBody | mcp-server/src/atlas_aci/counterfactual/patch_input.py:257-292 | the count-driven loop with its two closed flags is the unit-by-unit specification |
| HunkParser.ParseHunk | mcp-server/src/atlas_aci/counterfactual/patch_input.py:244-296 | `_hunk` is that specification, failures included |
| HunkParser.HunksAtIsGrammar | mcp-server/src/atlas_aci/counterfactual/patch_input.py:397-409 | the accepted hunk lists are exactly the ordered ones within the limit that the lines spell one after another |
| HunkParser.HunksAtFailures | mcp-server/src/atlas_aci/counterfactual/patch_input.py:399-409 | `limit_exceeded` exactly if one more hunk starts behind as many ordered ones as there is room for; otherwise `malformed_patch` exactly if no hunk list is spelled |
| HunkParser.OrderedMeans | mcp-server/src/atlas_aci/counterfactual/patch_input.py:403-407 | each hunk begins behind the last old line of the one before it, by line numbers |
| HunkParser.ParseHunks | mcp-server/src/atlas_aci/counterfactual/patch_input.py:397-409 | the loop of `_section` computes that, with the reason of each rejection |
| PatchApply.Split | mcp-server/src/atlas_aci/counterfactual/patch_input.py:519-530 | the `find` loop is the recursive split at LF |
| PatchApply.SplitIsFileLines | mcp-server/src/atlas_aci/counterfactual/patch_input.py:519-530 | the lines are nonempty, end in LF except possibly the last, and join to the data |
| PatchApply.ConcatSplits | mcp-server/src/atlas_aci/counterfactual/patch_input.py:519-530 | joining such lines and splitting again gives them back |
| PatchApply.SpliceAll | mcp-server/src/atlas_aci/counterfactual/patch_input.py:554-569 | the one-pass loop over the hunks is the recursive splice, mismatches included |
| PatchApply.Apply | mcp-server/src/atlas_aci/counterfactual/patch_input.py:537-588 | a result exactly if the old blob is named, every hunk's old lines stand at its line number behind those before it, and the rewritten lines fit the limit, the announced line numbers, the inner newlines and the new blob, and are empty for a deletion; and each of the three failures exactly in the documented order |
| PatchApply.AppliedMeans | mcp-server/src/atlas_aci/counterfactual/patch_input.py:540-588 | acceptance and each failure of the specification in terms of line numbers, tokens and bytes |
| PatchApply.SideLaws | mcp-server/src/atlas_aci/counterfactual/patch_input.py:555-556 | the sides of a hunk are the contents of their lines in order, each with LF unless its newline is missing |
| PatchApply.AppliedIsReplacement | mcp-server/src/atlas_aci/counterfactual/patch_input.py:537-588 | a successful result is the base with each hunk's old lines, found at its old anchor, replaced, at exactly the announced new positions, within the size limit and with the announced blob ids; only a deletion yields no file |
| PatchApply.SpliceIsReplacement | mcp-server/src/atlas_aci/counterfactual/patch_input.py:554-569 | one pass succeeds with a result exactly when the hunks are in order and replacing their old lines, last to first at their old anchors, gives that result |
| PatchApply.SplicesIffAllStand | mcp-server/src/atlas_aci/counterfactual/patch_input.py:554-569 | one pass succeeds exactly when every hunk's old lines stand at its anchor, at or after the end of the one before it |
| PatchApply.SpliceShape | mcp-server/src/atlas_aci/counterfactual/patch_input.py:141-146 | the result has added minus removed more lines, and each hunk lands at its old anchor plus the length change so far |
| PatchInverse.SpliceInverts | mcp-server/src/atlas_aci/counterfactual/patch_input.py:554-578 | splicing the swapped hunks into the result restores the source, each at its old anchor |
| PatchInverse.ParsedIsPlain | mcp-server/src/atlas_aci/counterfactual/patch_input.py:287-296 | contents of hunks parsed from lines split at LF hold no LF, as `InverseRestores` asks |
| PatchInverse.InverseIsPatch | mcp-server/src/atlas_aci/counterfactual/patch_input.py:403-407 | the inverse of an applied patch is well-formed and ordered, so the parser accepts it |
| PatchInverse.InverseRestores | mcp-server/src/atlas_aci/counterfactual/patch_input.py:537-588 | applying the swapped patch to the result gives the base back exactly when no "+" line is empty and lacks its newline, the base fits the size limit, and the base is absent just for a creation |
| PatchInverse.EmptyAdditionIsNotUndone | mcp-server/src/atlas_aci/counterfactual/patch_input.py:281-292 | the lines `@@ -1 +1,2 @@`, ` x`, `+`, `\ ` parse to a hunk with such a line; it applies, and its inverse is refused |
| SpanUnion.Union | atlas/evals/span_metrics.py:15-22 | for any spans, the merged ones ascend with gaps, touch exactly the positions the input touches, and a span that ends before it starts survives exactly if no earlier one reaches its start |
| SpanUnion.ProperMerge | atlas/evals/span_metrics.py:15-22 | spans that start no later than they end merge to separated spans of the same kind |
| SpanUnion.UnionIsCanonical | atlas/evals/span_metrics.py:15-22 | such inputs merge alike exactly if they touch the same positions; order and repetition do not matter, and merging again changes nothing |
| SpanMetrics.SizeIsBytes | atlas/evals/span_metrics.py:64-65 | the size of gapped spans is at most the number of bytes in them, and equal exactly if none ends before it starts |
| SpanMetrics.OverlapIsBytes | atlas/evals/span_metrics.py:67-73 | the double sum of overlaps is the number of bytes in both, whatever the spans |
| SpanMetrics.Size | atlas/evals/span_metrics.py:64-65 | summed over all file versions, the number of distinct bytes exactly if no span ends before it starts |
| SpanMetrics.Covered | atlas/evals/span_metrics.py:67-73 | summed over all file versions, the number of labelled bytes |
| SpanMetrics.GatherSources | atlas/evals/span_metrics.py:28-54 | the loop gathers exactly the available sources' spans and lengths, or fails with the first source's fault |
| SpanMetrics.FirstFaultMeans | atlas/evals/span_metrics.py:30-52 | the fault is that of the first source that does not pass, and the first of its tests that fails; none exactly if all pass |
| SpanMetrics.ProperIffNoStrays | atlas/evals/span_metrics.py:57-65 | the merged labels are sound exactly if every label that ends before it starts is absorbed by an earlier one of its file version |
| SpanMetrics.Account | atlas/evals/span_metrics.py:25-85 | for any sources and labels: every count is the size of the set of bytes it names (the label count exactly if no label strays), redundancy is summed length minus distinct bytes, the files are sorted; or the first source's fault |
| SpanMetrics.RedundantBytes | atlas/evals/span_metrics.py:82-83 | redundant bytes are never negative, and zero exactly if no byte is selected twice |
| SpanMetrics.AccountIsConsistent | atlas/evals/span_metrics.py:76-85 | useful counts are at most unique and labelled ones, inline at most referenced, redundancy is never negative and zero exactly if no byte is selected twice |
| SpanMetrics.ReversedLabelMiscounts | atlas/evals/span_metrics.py:57-65 | a label from 5 to 3 makes the label count negative |
| RateLimit.Enforcement.constructor | mcp-server/src/atlas_aci/enforcement.py:74-76 | the limiter starts with an empty history |
| RateLimit.Enforcement.AssertRateLimit | mcp-server/src/atlas_aci/enforcement.py:100-114 | a call is let through exactly if fewer than N of those let through before lie in the 60 seconds up to it; the deque then holds exactly those of the last 60 seconds |
| RateLimit.WindowBound | mcp-server/src/atlas_aci/enforcement.py:98-114 | over every run no closed 60-second window contains more than N calls let through |
| RateLimit.NeverMore | mcp-server/src/atlas_aci/enforcement.py:98-114 | at any moment no closed 60-second window holds more than N calls let through, and the deque is no longer than its maximal length, so it never drops one |
| RateLimit.LongWindowBound | mcp-server/src/atlas_aci/enforcement.py:98-114 | k minutes contain at most k·N |
| RateLimit.RefusedIffFull | mcp-server/src/atlas_aci/enforcement.py:108-113 | a refusal means exactly N calls were let through in the minute up to it |

## Left out

- SQLite reads, leases, record decoding, `traversal.hydrate`, JSON Schemas, digests and canonical JSON: the database is total functions, so failing reads are not modelled.
- Witness records: a counterexample is its files and import steps; node identities, hydrated hops and boundary records are not modelled, nor is the `file_entity` cache.
- The work counters other than those of the three modelled caches.
- `normalize_limits` and `normalize_patch_limits`: limits are given, in the ranges those functions enforce.
- `check`, `run` and `validate_report` around the rules: the per-rule part is modelled.
- `_check_architecture` beyond the per-entry checks, and the rest of `analyze.py` (staging, report assembly).
- `_check_nesting` and rule-file loading.
- `parse`, `_scan`, `Scope`, path and mode headers of a patch: the model starts at the hunk lines of a file section; `ParsedIsPlain` asks that lines hold no LF, which splitting at LF gives.
- The create and delete shape checks behind the hunk loop (`patch_input.py:410-422`).
- Type checks on JSON values (`partition_invalid_type`, non-integer nodes and edges): inputs are typed.
- Decimal rendering, `expansion_order`, `usefulness`, `decide`: computed directly from modelled values, or case tables.
- Decoding of inline source data (`utf8`, `base64`): `inline` is the decoded bytes.
- Floating point: modularity, the adjusted Rand index and the clock are exact; rounding of the clock's float is not modelled.
- The other enforcement checks, telemetry and logging.
