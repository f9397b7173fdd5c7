# HEX-graph inference kernel in Dafny

This project models the inference kernel of a HEX-graph classifier (Hierarchy and EXclusion
graphs, as in Deng et al., "Large-Scale Object Classification using Label Relation Graphs").
Labels are nodes. A hierarchy edge says a parent label subsumes a child label, and an exclusion
edge says two labels cannot both hold. The kernel has five parts:

- the graph, with its derived relations (ancestors, descendants, exclusions, overlapping labels)
  and its transforms: `sparsify`, `densify`, `triangulate`, the elimination ordering, subgraphs
  and deep copies;
- the enumerator of the legal label assignments (the state space), which splits on a pivot label;
- the tri-state configurations (true, false or unset, with their member and positive bit sets),
  and the factors over them: marginalization, product and division in log space;
- the junction tree: cliques from the triangulated graph's elimination ordering, a
  maximum-weight spanning tree over clique overlaps, and the collect and propagate passes of
  message passing;
- the sparse vector and sparse matrix utilities.

The earlier, map-based versions of the graph, the configuration and the junction tree
(`src/HEXGraph.java`, `src/Configuration.java`, `src/JunctionTree.java`) are modelled too, along
with the fixture graph of their unit tests.

Modules, one per source component:

| module | file | models |
|---|---|---|
| `Wrappers` | wrappers.dfy | `Option`, `Result` with the Java exceptions as error values, `Outcome`, and a choice from a set that stands for hash iteration order |
| `Names` | namespace.dfy | `util/NameSpace` |
| `Hierarchy` | hierarchy.dfy | reachability along hierarchy edges, and the closure the graph queries compute |
| `Configurations` | configuration.dfy | `hexgraph/Configuration` |
| `Factors` | factor.dfy | `hexgraph/Factor` |
| `GraphNodes` | graphnode.dfy | `HEXGraph.GraphNode` and the graph as a map from labels to nodes |
| `Elimination` | elimination.dfy | vertex elimination: fill edges, cliques, perfect elimination orderings |
| `Graphs` | hexgraph.dfy | `hexgraph/HEXGraph` |
| `Enumeration`, `StateSpace` | enumeration.dfy, statespace.dfy | `hexgraph/HEXGraphMethods`: state-space listing, its memo, junction-tree building |
| `JunctionTrees` | junctiontree.dfy | `hexgraph/JunctionTree`, `JunctionTreeNode`, `JunctionTreeEdge` |
| `Sparse` | sparse.dfy | `util/SparseVector`, `util/SparseMatrix` |
| `LegacyGraphs`, `LegacyConfigurations`, `LegacyJunctionTrees` | legacy_hexgraph.dfy, legacy_configuration.dfy, legacy_junctiontree.dfy | `src/HEXGraph`, `src/Configuration`, `src/JunctionTree` |
| `LegacyGraphExamples` | legacy_examples.dfy | the fixture graph and assertions of `test/HEXGraphTest` |

Objects whose fields the Java code updates in place are classes: the graphs, the configurations,
the factors, the junction tree with its nodes and edges, the sparse vectors and matrices, and
`HEXGraphMethods`. Their methods carry `modifies` clauses, and their loops carry invariants. A
method's result, or its new state, is tied to a specification function, and the properties the
code promises are proved about those functions as lemmas. Graph nodes are values, because the
Java code identifies them by label. Hash-set iteration order is a nondeterministic choice, so every
contract holds for any order. Doubles are `real`s, and `logSumOfExponentials` is a parameter.

## Code over documentation

Where the code and its documentation or comments disagree, the model follows the code:

- `getOverlapping` (src/hexgraph/HEXGraph.java:367-387) adds the queried label, not the
  overlapping node, so its result is either that label alone or empty.
- `getEliminationOrdering` (src/hexgraph/HEXGraph.java:464-490) is documented as a
  maximum-cardinality search, but it never updates `maxMarked`. It takes the last unmarked label
  of each iteration (see Findings).
- `Configuration.isSubsumed` (src/hexgraph/Configuration.java:161-169) compares the positive bits
  and the member bits one way only. An entry FALSE in the receiver passes against TRUE in the
  other configuration.
- `SparseVector.subVector` (src/util/SparseVector.java:21-35) takes its sparse branch only when
  `nnz() < from - to`, which is only possible for a backwards window. Every forward window goes
  through the dense copy.
- `addHierarchy`, `addExclusion` and `addTriangulationRelationship`
  (src/hexgraph/HEXGraph.java:167-205) chain their insertions with `&&`, so an insertion that
  finds its edge present stops the later ones.
- `deleteHierarchyEdge` and `deleteExclusion` (src/hexgraph/HEXGraph.java:228-241) both call
  `removeEdges`. It strips every kind of edge, in one direction only.
- The public `listStateSpace` returns no states at all for an empty graph
  (src/hexgraph/HEXGraphMethods.java:203-216).
- `HEXGraphMethods.getDeepCopy` (src/hexgraph/HEXGraphMethods.java:42-47) goes through the
  private constructor. It leaves the state-space memo unset (see Findings).
- The earlier `hasHierarchyEdge` tests the descendant closure rather than a direct edge
  (src/HEXGraph.java:110-112).
- The earlier `sparsify` does nothing (src/HEXGraph.java:200-202).
- The earlier `buildEdges` (src/JunctionTree.java:71-139) throws when its start node has no edge.
  That includes a tree with a single node. It only prints the spanning edges: it never stores
  them and never prunes the candidate edges.
- `addHierarchy` (src/hexgraph/HEXGraph.java:167-173, and the earlier one) only checks that both
  labels exist, so a hierarchy may have a cycle. The descendant and ancestor queries are modelled
  as reachability, which is what their recursion computes on an acyclic hierarchy; on a cycle the
  Java recursion overflows the stack (see Left out).
- When its start node has no candidate edge, `buildEdges` (src/hexgraph/JunctionTree.java:104-107)
  returns before pruning, so every node keeps all its candidate edges (see Findings).

## Model

| member | source | states |
|---|---|---|
| Names.NameSpace.constructor | src/util/NameSpace.java:10-16 | the table keeps the given name list; a repeated name maps to its last position |
| Names.NameSpace.Get | src/util/NameSpace.java:22-24 | succeeds exactly for an index inside the name array, and then yields the name stored there |
| Names.NameSpace.GetIndex | src/util/NameSpace.java:26-28 | succeeds exactly for a known name, and then yields the last position holding that name |
| Names.NameSpace.GetOfGetIndex | src/util/NameSpace.java:22-28 | looking up the index of a known name yields that same name again |
| Names.NameSpace.GetIndexOfGet | src/util/NameSpace.java:10-28 | when the names are distinct, the index of the name at position i is i |
| Names.NameSpace.GetIndexInjective | src/util/NameSpace.java:10-28 | two different known names never share an index, even when the list repeats names |
| Names.NameSpace.Size | src/util/NameSpace.java:30-32 | in a valid table every index lies below the size |
| Configurations.MembersUpdate | src/hexgraph/Configuration.java:102-118 | writing one entry adds the index to, or removes it from, each of the two bitsets as the switch does |
| Configurations.TrimmedBitsets | src/hexgraph/Configuration.java:148-154 | after trimming, both bitsets are the old ones intersected with the kept indices |
| Configurations.TrimIdempotent | src/hexgraph/Configuration.java:148-154 | trimming twice to the same indices gives the same result as trimming once |
| Configurations.TrimmedIsSubsumed | src/hexgraph/Configuration.java:148-169 | a trimmed configuration is subsumed by the configuration it was cut from |
| Configurations.SubsumedEntrywise | src/hexgraph/Configuration.java:161-169 | the bitset test holds exactly when every TRUE entry meets TRUE and every set entry meets a set entry |
| Configurations.FalseSubsumedByTrue | src/hexgraph/Configuration.java:156-169 | a FALSE entry is subsumed by a TRUE entry, although the doc comment asks for the same value |
| Configurations.SubsumedPreorder | src/hexgraph/Configuration.java:161-169 | subsumption is reflexive and transitive |
| Configurations.SameEntriesEquivalence | src/hexgraph/Configuration.java:134-142 | `hasSameEntries` is reflexive and symmetric |
| Configurations.SameEntriesIffEqual | src/hexgraph/Configuration.java:134-142 | on configurations of equal length, `hasSameEntries` holds exactly when the arrays are equal, which is what `equals` compares |
| Configurations.SameEntriesIgnoresLength | src/hexgraph/Configuration.java:134-142 | configurations of different lengths can have the same entries, since trailing UNSET entries leave the bitsets unchanged |
| Configurations.Configuration.constructor | src/hexgraph/Configuration.java:32-39 | n entries, all UNSET, and both bitsets empty |
| Configurations.Configuration.FromArray | src/hexgraph/Configuration.java:46-60 | keeps the given array, and both bitsets agree with its entries (TRUE falls through to set both bits) |
| Configurations.Configuration.FromIndices | src/hexgraph/Configuration.java:41-44 | succeeds exactly when every listed index is in range, and then every listed index is TRUE and all other entries are UNSET |
| Configurations.Configuration.Contains | src/hexgraph/Configuration.java:62-64 | fails on an index out of range; otherwise true exactly when the index is in the member bitset |
| Configurations.Configuration.IsSet | src/hexgraph/Configuration.java:66-68 | fails on an index out of range; otherwise true exactly when the index is in the TRUE bitset |
| Configurations.Configuration.Get | src/hexgraph/Configuration.java:70-72 | fails on an index out of range; otherwise the entry, which agrees with both bitsets |
| Configurations.Configuration.IsSubsumedBy | src/hexgraph/Configuration.java:161-169 | the stored-bitset test equals subsumption of the two tri-state vectors |
| Configurations.Configuration.HasSameEntriesAs | src/hexgraph/Configuration.java:134-142 | the xor test equals equality of both bitset pairs of the two vectors |
| Configurations.Configuration.GetDeepCopy | src/hexgraph/Configuration.java:82-84 | a fresh configuration over a fresh array with the same entries |
| Configurations.Configuration.SetValue | src/hexgraph/Configuration.java:102-118 | an index out of range fails and changes nothing; otherwise exactly that entry becomes v and the bitsets stay consistent |
| Configurations.Configuration.SetValues | src/hexgraph/Configuration.java:90-94 | passes exactly when all listed indices are in range, and then writes v at each; on failure the indices before the first bad one are written and nothing else |
| Configurations.Configuration.SetValuesSet | src/hexgraph/Configuration.java:96-100 | passes exactly when all indices are in range, and then writes v at each; on failure some subset has been written |
| Configurations.Configuration.ContainsMapping | src/hexgraph/Configuration.java:123-128 | true means every mapped index holds its value; false names a mismatch; an index out of range fails; with all indices in range it never fails |
| Configurations.Configuration.TrimTo | src/hexgraph/Configuration.java:148-154 | a fresh copy in which every entry outside the indices is reset; the receiver is unchanged |
| Configurations.Configuration.Size | src/hexgraph/Configuration.java:86-88 | the length of the tri-state vector; in a valid configuration every member index lies below it |
| Configurations.Configuration.GetMembers | src/hexgraph/Configuration.java:74-76 | in a valid configuration, exactly the indices for which `contains` answers true |
| Configurations.Configuration.GetBitwiseConfig | src/hexgraph/Configuration.java:78-80 | in a valid configuration, exactly the indices for which `isSet` answers true, all of them members |
| Configurations.Configuration.Equals | src/hexgraph/Configuration.java:172-174 | on valid configurations, true exactly when the sizes agree and `hasSameEntries` holds |
| Factors.SumRemove | src/hexgraph/Factor.java:133-141 | a sum of distribution values splits into one chosen entry plus the sum over the rest, in any order |
| Factors.InflowRemove | src/hexgraph/Factor.java:110-119 | what several separators add to one configuration splits into one separator's share plus the others', in any order |
| Factors.AbsorbedFrom | src/hexgraph/Factor.java:110-119 | a distribution whose every entry gained the sum of the subsumed separator entries is the absorbed distribution |
| Factors.QuotientFrom | src/hexgraph/Factor.java:121-131 | a distribution whose every entry lost the sum of the same-entry entries of the divisor is the quotient |
| Factors.PreimageAdd | src/hexgraph/Factor.java:98-106 | visiting one more configuration adds it to the preimage of its own trimming only |
| Factors.StepSingles | src/hexgraph/Factor.java:98-106 | one step of the projection loop keeps the value of every trimmed configuration that has exactly one source unchanged |
| Factors.StepFolds | src/hexgraph/Factor.java:98-106 | with a commutative and associative combiner, one step keeps every trimmed value equal to the combination over its visited sources |
| Factors.ProjectionStep | src/hexgraph/Factor.java:98-106 | one step of the projection loop keeps the projection invariant over the configurations visited so far |
| Factors.Commute | src/hexgraph/Factor.java:143-149 | under the commutative-associative assumption, arguments of the combiner swap |
| Factors.Associate | src/hexgraph/Factor.java:143-149 | under the commutative-associative assumption, the combiner regroups |
| Factors.FoldAny | src/hexgraph/Factor.java:98-106 | the combination over a set of entries can take any member out first, so hash order does not matter |
| Factors.ScoreOfNoTrue | src/hexgraph/Factor.java:25-28 | a configuration with no TRUE entry adds nothing to the base score |
| Factors.ScoreOfSetTrue | src/hexgraph/Factor.java:25-28 | setting one more entry TRUE adds exactly that class's score |
| Factors.ConfigurationScore | src/hexgraph/Factor.java:25-28 | the loop over the scores fails exactly when a configuration is shorter than the scores, and otherwise yields 1.0 plus the scores of its TRUE classes |
| Factors.Factor.constructor | src/hexgraph/Factor.java:44-47 | an empty distribution over no variables |
| Factors.Factor.Of | src/hexgraph/Factor.java:49-52 | a factor over the given distribution and members |
| Factors.Factor.FromConfigs | src/hexgraph/Factor.java:17-31 | succeeds exactly when every configuration is over the member classes and covers the scores; every configuration is scored; each failure names its cause |
| Factors.Factor.FromConfigsUniform | src/hexgraph/Factor.java:33-42 | succeeds exactly when every configuration is over the member classes, and then gives each the default score 1.0 |
| Factors.Factor.GetDeepCopy | src/hexgraph/Factor.java:58-65 | a fresh factor with the same distribution and the same variables |
| Factors.Factor.AddConfiguration | src/hexgraph/Factor.java:67-74 | fails, changing nothing, exactly when the factor already has variables that differ from the configuration's; otherwise the entry is written and the variables are the configuration's |
| Factors.Factor.GetSubDistribution | src/hexgraph/Factor.java:86-108 | fails exactly when the indices are not all variables; otherwise a fresh factor over the indices whose keys are the trimmed configurations, each the combination of the values of its sources |
| Factors.Factor.CombineDistributionProduct | src/hexgraph/Factor.java:110-119 | the same keys, each entry increased by the sum of the separator entries it subsumes; an entry subsuming none is unchanged |
| Factors.Factor.Divide | src/hexgraph/Factor.java:121-131 | a fresh factor with the same keys, each entry decreased by the divisor entries with the same entries; the receiver is unchanged |
| Factors.Factor.GetScoreIfSubsumed | src/hexgraph/Factor.java:133-141 | the sum of the entries whose configuration subsumes the query, or 1.0 when that sum is zero, in particular when none does |
| GraphNodes.GraphNode.With | src/hexgraph/HEXGraph.java:758-768 | the node gains one label in the adjacency set of the given kind and keeps the other two sets |
| GraphNodes.GraphNode.Minus | src/hexgraph/HEXGraph.java:778-801 | every adjacency set loses the removed labels and keeps the rest |
| GraphNodes.Link | src/hexgraph/HEXGraph.java:758-768 | adding one adjacency entry at a present label keeps the label set |
| GraphNodes.TriLinked | src/hexgraph/HEXGraph.java:200-205 | the state after `addTriangulationRelationship` on present labels keeps the label set |
| GraphNodes.ExclusionLinked | src/hexgraph/HEXGraph.java:184-191 | the state after `addExclusion` on present labels keeps the label set |
| GraphNodes.HierarchyLinked | src/hexgraph/HEXGraph.java:167-173 | the state after `addHierarchy` on present labels keeps the label set |
| GraphNodes.Unlinked | src/hexgraph/HEXGraph.java:228-241 | removing one label from one node's adjacency sets keeps the label set |
| GraphNodes.ChildMap | src/hexgraph/HEXGraph.java:640-642 | the hierarchy relation has one entry per node, whose successors are exactly that node's children |
| GraphNodes.TriMap | src/hexgraph/HEXGraph.java:649-652 | the triangulation relation has one entry per node, holding exactly its triangulation neighbours |
| GraphNodes.Minus | src/hexgraph/HEXGraph.java:213-219 | the graph without the removed labels, in which every remaining node has lost its edges to them |
| GraphNodes.Induced | src/hexgraph/HEXGraph.java:94-106 | the labels of the subset, each node keeping exactly its edges to labels of the subset |
| GraphNodes.ReachedInside | src/hexgraph/HEXGraph.java:731-737 | in a closed graph every descendant of a node is itself a node |
| GraphNodes.LinkClosed | src/hexgraph/HEXGraph.java:758-768 | an edge between two present labels keeps the graph closed |
| GraphNodes.TriLinkedFacts | src/hexgraph/HEXGraph.java:200-205 | `addTriangulationRelationship` keeps the hierarchy, the exclusions and closure, only adds edges, and links the first label to the second |
| GraphNodes.TriLinkedSymmetric | src/hexgraph/HEXGraph.java:200-205 | on a graph with symmetric triangulation edges, the link keeps them symmetric, whichever insertion the `&&` chain stops at |
| GraphNodes.ExclusionLinkedFacts | src/hexgraph/HEXGraph.java:184-191 | `addExclusion` keeps the hierarchy and closure, only adds edges, and makes the first label exclude the second |
| GraphNodes.ExclusionLinkedSymmetric | src/hexgraph/HEXGraph.java:184-191 | on a graph whose exclusions come in pairs, `addExclusion` adds exactly the pair and nothing else |
| GraphNodes.HierarchyLinkedFacts | src/hexgraph/HEXGraph.java:167-173 | `addHierarchy` adds exactly the child to the parent's hierarchy, keeps the exclusions and closure, and only adds edges |
| GraphNodes.MinusAbsent | src/hexgraph/HEXGraph.java:213-219 | removing labels that the graph does not hold changes nothing |
| GraphNodes.MinusClosed | src/hexgraph/HEXGraph.java:213-219 | deleting nodes keeps the graph closed: no edge leads to a removed node |
| GraphNodes.MinusMinus | src/hexgraph/HEXGraph.java:128-140 | removing one set of labels and then another removes their union |
| GraphNodes.MinusComplement | src/hexgraph/HEXGraph.java:94-106 | on a closed graph, deleting every label outside the subset leaves the subgraph induced by the subset |
| GraphNodes.UnlinkedFacts | src/hexgraph/HEXGraph.java:228-241 | `removeEdges` on one node keeps closure, only removes edges, and removes exactly that hierarchy edge from the relation |
| GraphNodes.UnlinkedKeepsHierarchy | src/hexgraph/HEXGraph.java:239-241 | removing a label that is not a child of the node keeps the hierarchy relation |
| GraphNodes.ShrunkTrans | src/hexgraph/HEXGraph.java:394-416 | losing edges twice is losing edges |
| GraphNodes.GrownTrans | src/hexgraph/HEXGraph.java:423-436 | gaining edges twice is gaining edges |
| GraphNodes.ShrunkNoExcludedChild | src/hexgraph/HEXGraph.java:817-824 | removing edges cannot break the invariant that no node excludes one of its children |
| GraphNodes.PruneKeepsReach | src/hexgraph/HEXGraph.java:398-404 | in an acyclic graph, deleting a hierarchy edge that a longer path bypasses keeps every descendant relation |
| GraphNodes.ShortcutKeepsReach | src/hexgraph/HEXGraph.java:431-433 | adding a hierarchy edge along an existing descendant relation keeps every descendant relation |
| Hierarchy.Expand | src/hexgraph/HEXGraph.java:731-737 | exactly the children of the labels in the frontier |
| Hierarchy.Descendants | src/hexgraph/HEXGraph.java:731-737 | a label is in the result exactly when a walk of one or more hierarchy edges leads to it |
| Hierarchy.Edge | src/hexgraph/HEXGraph.java:731-737 | a direct child is a descendant |
| Hierarchy.ReachesTrans | src/hexgraph/HEXGraph.java:731-737 | a descendant of a descendant is a descendant |
| Hierarchy.PathInClosed | src/hexgraph/HEXGraph.java:731-737 | a set that holds a label's children and is closed under children holds all its descendants |
| Hierarchy.CloseFromCorrect | src/hexgraph/HEXGraph.java:731-737 | the breadth-first closure reaches exactly the descendants of the label |
| Hierarchy.Simulate | src/hexgraph/HEXGraph.java:394-436 | when every edge of one relation is a walk in another, every walk of the first is matched by a walk in the second |
| Hierarchy.SimulateAll | src/hexgraph/HEXGraph.java:394-436 | the same for every pair of labels: the descendants of the first relation are descendants in the second |
| Hierarchy.SameReach | src/hexgraph/HEXGraph.java:394-436 | two relations whose edges are walks in each other have the same descendant relation |
| Hierarchy.AddReachedEdge | src/hexgraph/HEXGraph.java:431-433 | adding an edge to a label that is already a descendant keeps every descendant relation |
| Hierarchy.AvoidsEdgeByTarget | src/hexgraph/HEXGraph.java:398-404 | a walk whose end is not the removed edge's target and is not reached from it survives the removal |
| Hierarchy.AvoidsEdgeBySource | src/hexgraph/HEXGraph.java:398-404 | a walk whose start does not reach the removed edge's source survives the removal |
| Hierarchy.RemoveRedundantEdge | src/hexgraph/HEXGraph.java:398-404 | in an acyclic relation, removing an edge that a longer path bypasses keeps every descendant relation |
| Elimination.WorkPrefix | src/hexgraph/HEXGraph.java:447-457 | the copy after n eliminations depends only on the first n labels eliminated |
| Elimination.FillAllPrefix | src/hexgraph/HEXGraph.java:447-457 | the fill-in added to the graph after n turns depends only on the first n cliques |
| Elimination.WorkExtend | src/hexgraph/HEXGraph.java:447-457 | one more turn links the label's neighbours pairwise in the copy and deletes the label |
| Elimination.FillAllExtend | src/hexgraph/HEXGraph.java:452 | one more turn links the same neighbours pairwise in the graph itself |
| Elimination.CliquesExtend | src/hexgraph/HEXGraph.java:447-457 | the turn records the neighbourhood the label had in the copy at that moment |
| Elimination.WorkNodes | src/hexgraph/HEXGraph.java:447-457 | the copy holds exactly the labels not yet eliminated, and no edge leaves it |
| Elimination.Persist | src/hexgraph/HEXGraph.java:447-457 | an edge of the copy survives the turns of labels other than its ends |
| Elimination.FillAllGrows | src/hexgraph/HEXGraph.java:452 | triangulation only adds neighbours to the graph's labels |
| Elimination.FillAllSource | src/hexgraph/HEXGraph.java:442-458 | every neighbour after triangulation was a neighbour before or shares one of the recorded neighbourhoods |
| Elimination.FillAllClique | src/hexgraph/HEXGraph.java:448-455 | any two distinct members of a recorded neighbourhood are neighbours in the triangulated graph |
| Elimination.CliqueAhead | src/hexgraph/HEXGraph.java:447-457 | the neighbourhood a label has at its turn holds only labels eliminated later |
| Elimination.FillCarried | src/hexgraph/HEXGraph.java:447-457 | an edge made at one turn is still in the copy at a later turn when both its ends remain |
| Elimination.LaterNeighbour | src/hexgraph/HEXGraph.java:442-458 | a neighbour of a label in the triangulated graph that is eliminated later lies in the neighbourhood it had at its turn |
| Elimination.FillAllTriangulates | src/hexgraph/HEXGraph.java:442-458 | the order in which `triangulate` eliminates labels is a perfect elimination ordering of the triangulated graph, so the result is chordal |
| Graphs.RemoveMatching | src/hexgraph/HEXGraph.java:793-801 | the iterator walk removes exactly the matching label from the set |
| Graphs.CheckNode | src/hexgraph/HEXGraph.java:817-824 | passes exactly when no child of the node is also excluded by it, and otherwise fails with IllegalState |
| Graphs.DeleteSelected | src/hexgraph/HEXGraph.java:99-103 | deleting, one at a time, each node of the copy that the test selects leaves the graph without those nodes and without any edge to them |
| Graphs.DensifyingReach | src/hexgraph/HEXGraph.java:423-436 | throughout `densify` the descendant relation is that of the graph it started from |
| Graphs.ChildrenGrowth | src/hexgraph/HEXGraph.java:431-433 | gaining edges keeps the children of the finished nodes closed under descendants |
| Graphs.ExclusionsGrowth | src/hexgraph/HEXGraph.java:425-429 | gaining edges keeps the inherited exclusions of the finished nodes |
| Graphs.ExclusionStep | src/hexgraph/HEXGraph.java:427 | one `addExclusion` keeps the `densify` invariant, only adds edges and makes the first label exclude the second |
| Graphs.HierarchyStep | src/hexgraph/HEXGraph.java:432 | one `addHierarchy` towards a descendant keeps the `densify` invariant, only adds edges and makes it a child |
| Graphs.DensifyingDone | src/hexgraph/HEXGraph.java:424-434 | a node whose exclusions are inherited and whose children are closed can join the finished nodes |
| Graphs.DensifyingStart | src/hexgraph/HEXGraph.java:423-424 | a closed graph meets the `densify` invariant with no node finished |
| Graphs.AncestorsAgree | src/hexgraph/HEXGraph.java:287-299 | two graphs with the same labels and the same descendant relation have the same ancestors for every label |
| Graphs.DensifyResult | src/hexgraph/HEXGraph.java:423-436 | after every node is finished, each node's direct children are exactly its descendants in the original graph |
| Graphs.TriMapClosed | src/hexgraph/HEXGraph.java:346-356 | in a closed graph no triangulation edge leaves the node set |
| Graphs.TriMapMinus | src/hexgraph/HEXGraph.java:456 | deleting a node from the copy is one move of the elimination game on its triangulation relation |
| Graphs.TriLinkedWithin | src/hexgraph/HEXGraph.java:451-452 | linking two neighbours keeps the triangulation between its start and the pairwise linking of the neighbourhood, and touches no other relation |
| Graphs.FillBounds | src/hexgraph/HEXGraph.java:448-455 | once every pair of neighbours is linked and nothing else was added, the result is exactly the neighbourhood filled in |
| Graphs.WithinStart | src/hexgraph/HEXGraph.java:448 | before the pair loops the relation lies between its start and its fill-in |
| Graphs.WithinNeighbours | src/hexgraph/HEXGraph.java:448-455 | the pair loops never change the neighbourhood of the eliminated node itself |
| Graphs.SameButTrans | src/hexgraph/HEXGraph.java:442-458 | changing only triangulation edges twice changes only triangulation edges |
| Graphs.JoinedFirst | src/hexgraph/HEXGraph.java:448-449 | the inner loop starts with no second label linked |
| Graphs.JoinedStep | src/hexgraph/HEXGraph.java:449-454 | linking one more second label to the first keeps the inner loop invariant |
| Graphs.JoinedNext | src/hexgraph/HEXGraph.java:448-455 | a first label linked to every neighbour completes one round of the outer loop |
| Graphs.EliminatingKeys | src/hexgraph/HEXGraph.java:447-457 | the copy holds exactly the labels not yet eliminated |
| Graphs.EliminatingStep | src/hexgraph/HEXGraph.java:447-457 | one turn of `triangulate` keeps the elimination invariant over the copy and the receiver |
| Graphs.EliminatingDone | src/hexgraph/HEXGraph.java:442-458 | when the copy is empty, the labels were eliminated once each and the order is a perfect elimination ordering of the result |
| Graphs.Reverse | src/hexgraph/HEXGraph.java:488 | same length, with position i holding the element at the mirrored position |
| Graphs.LaterReversed | src/hexgraph/HEXGraph.java:485-488 | the labels picked after position k are those before the mirrored position once the list is reversed |
| Graphs.LaterExtend | src/hexgraph/HEXGraph.java:485 | appending a pick adds it to the labels picked after every earlier position |
| Graphs.MarksStep | src/hexgraph/HEXGraph.java:485-486 | removing a picked label from the unmarked set keeps every label accounted for exactly once |
| Graphs.MarksDone | src/hexgraph/HEXGraph.java:464-490 | when nothing is unmarked, the reversed picks list each label exactly once |
| Graphs.MarkingStep | src/hexgraph/HEXGraph.java:473-486 | picking a label with the most marked neighbours keeps the maximum-cardinality invariant |
| Graphs.MarkingStepChoices | src/hexgraph/HEXGraph.java:473-486 | each earlier pick stays a most-marked choice for the set it was chosen from |
| Graphs.MarkingDone | src/hexgraph/HEXGraph.java:464-490 | with the corrected choice, the reversed picks are a maximum-cardinality ordering of all labels |
| Graphs.CountStep | src/hexgraph/HEXGraph.java:475-479 | counting one more neighbour adds one exactly when it is marked |
| Graphs.ChooseAsWrittenSnoc | src/hexgraph/HEXGraph.java:473-483 | as written, each visited label replaces the choice whenever its count beats the never-updated maximum |
| Graphs.ChooseAsWrittenLast | src/hexgraph/HEXGraph.java:469-483 | as written, the choice is the last label visited, whatever the counts |
| Graphs.ChooseAsWrittenMissesMaximum | src/hexgraph/HEXGraph.java:469-483 | a label with one marked neighbour loses to a label visited after it with none |
| Graphs.HEXGraph.constructor | src/hexgraph/HEXGraph.java:46-49 | an empty graph over the given name space |
| Graphs.HEXGraph.AddNode | src/hexgraph/HEXGraph.java:149-155 | adds an edgeless node and returns true exactly when the label was absent; otherwise nothing changes |
| Graphs.HEXGraph.AttachEdge | src/hexgraph/HEXGraph.java:758-768 | adds the label to one adjacency set and returns whether it was new |
| Graphs.HEXGraph.AddTriangulationRelationship | src/hexgraph/HEXGraph.java:200-205 | with a missing endpoint returns false and changes nothing; otherwise links the pair both ways as far as the `&&` chain goes and returns whether both insertions were new |
| Graphs.HEXGraph.AddHierarchy | src/hexgraph/HEXGraph.java:167-173 | with a missing endpoint returns false and changes nothing; otherwise adds the child and then, if it was new, the triangulation link, returning true exactly when every insertion was new |
| Graphs.HEXGraph.AddExclusion | src/hexgraph/HEXGraph.java:184-191 | with a missing endpoint returns false and changes nothing; otherwise adds each exclusion direction and the triangulation link, stopping at the first insertion that was not new |
| Graphs.HEXGraph.RemoveEdges | src/hexgraph/HEXGraph.java:778-786 | removes every edge kind from one node to the head and returns true |
| Graphs.HEXGraph.DeleteNode | src/hexgraph/HEXGraph.java:213-219 | the label and every edge to it are gone; deleting an absent label changes nothing |
| Graphs.HEXGraph.Unlink | src/hexgraph/HEXGraph.java:228-241 | a missing source fails and changes nothing; otherwise every edge kind from the source to the target is removed, and the target's own sets are untouched |
| Graphs.HEXGraph.DeleteHierarchyEdge | src/hexgraph/HEXGraph.java:228-230 | the same as `Unlink` on parent and child: all three edge kinds go, in one direction only |
| Graphs.HEXGraph.DeleteExclusion | src/hexgraph/HEXGraph.java:239-241 | the same as `Unlink` on the pair: all three edge kinds go, in one direction only |
| Graphs.HEXGraph.IsDescendant | src/hexgraph/HEXGraph.java:251-253 | fails for an absent parent; otherwise true exactly when the child is a node and a descendant |
| Graphs.HEXGraph.HasExclusion | src/hexgraph/HEXGraph.java:262-264 | fails for an absent first label; otherwise true exactly when the second is a node in its excluded set |
| Graphs.HEXGraph.GetDescendants | src/hexgraph/HEXGraph.java:308-318 | null for an absent label; otherwise exactly the labels reached by hierarchy walks |
| Graphs.HEXGraph.GetExcluded | src/hexgraph/HEXGraph.java:327-338 | null for an absent label; otherwise exactly the labels `hasExclusion` confirms |
| Graphs.HEXGraph.GetTriangulatedNeighbors | src/hexgraph/HEXGraph.java:346-356 | null for an absent label; otherwise its triangulation neighbours |
| Graphs.HEXGraph.GetNodeList | src/hexgraph/HEXGraph.java:527-533 | every label exactly once, in some order |
| Graphs.HEXGraph.GetAncestors | src/hexgraph/HEXGraph.java:287-299 | null for an absent label; otherwise exactly the labels of which it is a descendant |
| Graphs.HEXGraph.GetOverlapping | src/hexgraph/HEXGraph.java:367-387 | null for an absent label; otherwise at most the label itself, present exactly when some node is unrelated to it, and always present when the label is neither its own descendant nor self-excluded |
| Graphs.HEXGraph.CheckInvariant | src/hexgraph/HEXGraph.java:604-608 | passes exactly when no node excludes one of its children, and otherwise fails with IllegalState |
| Graphs.HEXGraph.SparsifyAncestor | src/hexgraph/HEXGraph.java:400-404 | removing the hierarchy edges that an ancestor's ancestors bypass only removes edges and, on an acyclic graph, keeps every descendant relation |
| Graphs.HEXGraph.SparsifyExclusions | src/hexgraph/HEXGraph.java:407-411 | removing the exclusions an ancestor already has only removes edges and keeps every descendant relation |
| Graphs.HEXGraph.SparsifyNode | src/hexgraph/HEXGraph.java:395-413 | one node's pass only removes edges and keeps every descendant relation |
| Graphs.HEXGraph.Sparsify | src/hexgraph/HEXGraph.java:394-416 | keeps the labels and only removes edges; on an acyclic graph where no node excludes a child, keeps every descendant relation and passes; passes exactly when the final invariant holds |
| Graphs.HEXGraph.DensifyExclusion | src/hexgraph/HEXGraph.java:427 | one `addExclusion` keeps the `densify` invariant and adds the exclusion |
| Graphs.HEXGraph.DensifyChild | src/hexgraph/HEXGraph.java:432 | one `addHierarchy` towards a descendant keeps the invariant and adds the child |
| Graphs.HEXGraph.DensifyAncestor | src/hexgraph/HEXGraph.java:426-428 | the node ends up excluding everything the ancestor excluded at the start |
| Graphs.HEXGraph.DensifyExclusions | src/hexgraph/HEXGraph.java:425-429 | the node inherits the exclusions of all its ancestors |
| Graphs.HEXGraph.DensifyHierarchy | src/hexgraph/HEXGraph.java:431-433 | the node's children become closed under descendants, keeping its exclusions |
| Graphs.HEXGraph.DensifyNode | src/hexgraph/HEXGraph.java:424-434 | one node's pass finishes that node |
| Graphs.HEXGraph.Densify | src/hexgraph/HEXGraph.java:423-436 | keeps the labels, only adds edges and keeps every descendant relation; children become the descendant closure; each node excludes what its ancestors excluded; paired exclusions stay paired; passes exactly when the final invariant holds |
| Graphs.HEXGraph.TriangulatePair | src/hexgraph/HEXGraph.java:450-453 | linking one pair in the copy and in the receiver keeps the pair-loop invariant and touches only triangulation edges |
| Graphs.HEXGraph.TriangulateFirst | src/hexgraph/HEXGraph.java:448-455 | one round of the outer pair loop links the first label to every neighbour |
| Graphs.HEXGraph.TriangulateNode | src/hexgraph/HEXGraph.java:447-457 | one turn removes the label from the copy, turns its neighbourhood into a clique in both graphs, and changes only triangulation edges |
| Graphs.HEXGraph.Triangulate | src/hexgraph/HEXGraph.java:442-458 | only triangulation edges change; the labels are eliminated once each; the result is the recorded fill-in, and the elimination order is a perfect elimination ordering of it |
| Graphs.HEXGraph.CountMarked | src/hexgraph/HEXGraph.java:474-479 | the number of the label's triangulation neighbours that are already marked |
| Graphs.HEXGraph.SelectAsWritten | src/hexgraph/HEXGraph.java:468-484 | the selection loop as written returns the last unmarked label it visits |
| Graphs.HEXGraph.GetEliminationOrdering | src/hexgraph/HEXGraph.java:464-490 | as written: a list holding every label exactly once, with no guarantee on the order |
| Graphs.HEXGraph.SelectNext | src/hexgraph/HEXGraph.java:473-483 | with the maximum updated, the choice is an unmarked label with the most marked neighbours |
| Graphs.HEXGraph.GetMaximumCardinalityOrdering | src/hexgraph/HEXGraph.java:464-490 | with the corrected choice: every label exactly once, in a maximum-cardinality order |
| Graphs.HEXGraph.GetDeepCopy | src/hexgraph/HEXGraph.java:55-86 | a fresh graph with the same name space and the same nodes and edges |
| Graphs.HEXGraph.GetSubgraph | src/hexgraph/HEXGraph.java:94-106 | a fresh graph with exactly the labels in the subset and the edges between them; the receiver is unchanged |
| Graphs.HEXGraph.GetSubgraphBits | src/hexgraph/HEXGraph.java:108-120 | an empty bitset gives an empty graph; otherwise it fails exactly when some label is unknown to the name space, and succeeds with the subgraph induced by the selected labels |
| Graphs.HEXGraph.GetSubgraphMinus | src/hexgraph/HEXGraph.java:128-140 | a fresh graph without the subset's labels and without the edges to them |
| Graphs.HEXGraph.Size | src/hexgraph/HEXGraph.java:497-499 | the number of labels the graph holds: every set of exactly the labels `HasNode` accepts has this size |
| Graphs.HEXGraph.GetNodeSet | src/hexgraph/HEXGraph.java:539-545 | exactly the labels that `hasNode` accepts |
| Graphs.ChooseAsWritten | src/hexgraph/HEXGraph.java:473-483 | as written, the choice is the initial one or a visited label whose count beat the maximum |
| Enumeration.ValAssigned | src/hexgraph/HEXGraphMethods.java:296-297 | after `setValues` a label reads the written value exactly when its index was among those written, and its old value otherwise |
| Enumeration.InImage | src/hexgraph/HEXGraphMethods.java:312-318 | for labels of an indexed graph, an index is in the translated set exactly when its label is in the set |
| Enumeration.OffImage | src/hexgraph/HEXGraphMethods.java:312-318 | an index outside the translation of the whole graph is outside that of every set of its labels |
| Enumeration.Branch0Val | src/hexgraph/HEXGraphMethods.java:295-297 | branch 0 makes the excluded labels FALSE, the pivot and its ancestors TRUE and leaves every other label as it was |
| Enumeration.Branch1Val | src/hexgraph/HEXGraphMethods.java:300-301 | branch 1 makes the pivot and its descendants FALSE and leaves every other label as it was |
| Enumeration.BranchesOff | src/hexgraph/HEXGraphMethods.java:291-301 | off the graph's own indices neither branch changes the configuration |
| Enumeration.RemovedIndex | src/hexgraph/HEXGraphMethods.java:304-305 | an index of the graph that is not an index of the remaining subgraph belongs to a removed label |
| Enumeration.ParentsNotExcluded | src/hexgraph/HEXGraphMethods.java:295-297 | in a dense graph the pivot excludes neither itself nor an ancestor, so branch 0 never writes both values to one label |
| Enumeration.DenseReaches | src/hexgraph/HEXGraph.java:308-318 | in a transitively closed graph a label reaches another exactly when it has it as a direct child |
| Enumeration.PathIsEdge | src/hexgraph/HEXGraph.java:308-318 | in a transitively closed graph every hierarchy walk is one direct edge |
| Enumeration.DenseMinus | src/hexgraph/HEXGraph.java:128-140 | removing labels keeps a graph densified |
| Enumeration.DenseInduced | src/hexgraph/HEXGraph.java:94-106 | an induced subgraph of a densified graph is densified |
| Enumeration.IndexedMinus | src/hexgraph/HEXGraph.java:128-140 | removing labels keeps every remaining label's name-space index |
| Enumeration.SplitForward0 | src/hexgraph/HEXGraphMethods.java:291-304 | a legal state with the pivot TRUE extends branch 0 on the graph without the first removed set |
| Enumeration.SplitForward1 | src/hexgraph/HEXGraphMethods.java:292-305 | a legal state with the pivot FALSE extends branch 1 on the graph without the second removed set |
| Enumeration.SplitBack0 | src/hexgraph/HEXGraphMethods.java:291-304 | every state found in branch 0 is a legal state of the whole graph |
| Enumeration.SplitBack1 | src/hexgraph/HEXGraphMethods.java:292-305 | every state found in branch 1 is a legal state of the whole graph |
| Enumeration.Split | src/hexgraph/HEXGraphMethods.java:270-305 | the legal states of a densified graph are exactly those found in the two branches, whichever pivot is chosen |
| Enumeration.ExtendsEmpty | src/hexgraph/HEXGraphMethods.java:264-268 | the only completion on an empty graph is the current configuration itself |
| StateSpace.Unset | src/hexgraph/Configuration.java:32-39 | `new Configuration(n)` holds n labels, all UNSET |
| StateSpace.StatesOfUnfold | src/hexgraph/HEXGraphMethods.java:270-305 | one step of the split: the states of the graph are those of the two branches together |
| StateSpace.IndexedByNames | src/util/NameSpace.java:10-16 | a valid name space gives every known label of a graph an index of its own below its size |
| StateSpace.PivotFacts | src/hexgraph/HEXGraphMethods.java:277-289 | on a densified graph the ancestors of the pivot are its parents, its descendants its direct children, and both removed sets lie inside the graph |
| StateSpace.StatesOfExact | src/hexgraph/HEXGraphMethods.java:260-306 | the split finds exactly the legal completions of the current configuration, whatever pivots it takes |
| StateSpace.BranchesDisjoint | src/hexgraph/HEXGraphMethods.java:295-301 | branch 0 only finds states with the pivot TRUE and branch 1 only states with it FALSE |
| StateSpace.EmittedMembers | src/hexgraph/HEXGraphMethods.java:211 | every state found from the all-UNSET start sets exactly the labels of the graph |
| StateSpace.UnconstrainedDense | src/hexgraph/HEXGraph.java:423-436 | an edgeless graph is already densified |
| StateSpace.UnconstrainedStep | src/hexgraph/HEXGraphMethods.java:274-289 | in an edgeless graph each branch removes only the pivot, leaving an edgeless graph one label smaller |
| StateSpace.DisjointStates | src/hexgraph/HEXGraphMethods.java:304-305 | no state is found by both branches, so the merged set loses none |
| StateSpace.UnconstrainedCount | src/hexgraph/HEXGraphMethods.java:260-306 | an edgeless graph of n labels has 2^n states |
| StateSpace.UnconstrainedStateSpace | test/HEXGraphTest.java:135-138 | a set holding exactly the states of an edgeless graph has 2^n elements, the 1024 the unconnected ten-label fixture expects |
| StateSpace.Combine | src/hexgraph/HEXGraphMethods.java:304-305 | the two recursive calls on one accumulator add exactly the states of the graph |
| StateSpace.FormClique | src/hexgraph/HEXGraphMethods.java:87-95 | the label at position i together with its triangulation neighbours at positions i and later |
| StateSpace.HoldsStep | src/hexgraph/HEXGraphMethods.java:96 | adding the next clique, by a new node or an existing node that consumes it, keeps every clique so far held by some node |
| StateSpace.KnownByOrdering | src/hexgraph/HEXGraphMethods.java:86 | the graph's labels are all in the name space exactly when every label of an ordering of it is |
| StateSpace.UnknownInClique | src/hexgraph/HEXGraphMethods.java:96 | a clique with a label outside the name space means the ordering has one too |
| StateSpace.AddClique | src/hexgraph/HEXGraphMethods.java:87-96 | one round keeps the tree valid and adds no edge; it fails on an unknown label, and otherwise every clique up to i is held by a node |
| StateSpace.AddCliques | src/hexgraph/HEXGraphMethods.java:86-97 | passes exactly when every label of the ordering is known, and then every clique of the ordering is held by some node |
| StateSpace.LabelsCovered | src/hexgraph/HEXGraphMethods.java:86-97 | once every clique is held, so is every label of the ordering |
| StateSpace.LabelCovered | src/hexgraph/HEXGraphMethods.java:88-89 | the label at a position is in the node holding its clique |
| StateSpace.TriangulatedGraph | src/hexgraph/HEXGraphMethods.java:80-81 | a fresh copy of the sparse graph with the same labels whose triangulation edges are a fill-in of the original's |
| StateSpace.CliqueTree | src/hexgraph/HEXGraphMethods.java:84-101 | fails with NullPointer exactly when a label is unknown; otherwise every clique is held by a node, and `buildEdges` either fails on a split tree or links the nodes greedily into a tree with one edge fewer than nodes that no spanning tree of positive-overlap edges outweighs; the edges are grown by the corrected `buildEdges` (see Findings) |
| StateSpace.TriangulatedCopy | src/hexgraph/HEXGraphMethods.java:80-82 | a triangulated fresh copy and an ordering holding each label of the graph once |
| StateSpace.JunctionTreeOf | src/hexgraph/HEXGraphMethods.java:79-102 | triangulates, forms one clique per ordering position and links them: the same outcomes as `CliqueTree`, stated over the graph's labels |
| StateSpace.KnownTree | src/hexgraph/HEXGraphMethods.java:79-102 | the outcome of an ordering's tree, restated for the labels of the graph |
| StateSpace.HEXGraphMethods.constructor | src/hexgraph/HEXGraphMethods.java:30-34 | on a densified graph: the given graphs and name space with an empty memo |
| StateSpace.HEXGraphMethods.GetDeepCopyAsWritten | src/hexgraph/HEXGraphMethods.java:36-47 | as written: fresh copies of both graphs, the same name space, and no memo at all |
| StateSpace.HEXGraphMethods.GetDeepCopy | src/hexgraph/HEXGraphMethods.java:42-47 | corrected: fresh copies of both graphs, the same name space and an empty memo |
| StateSpace.HEXGraphMethods.CopyThenListAsWritten | src/hexgraph/HEXGraphMethods.java:203-216 | listing the states of a copy made as written fails on any non-empty dense graph |
| StateSpace.HEXGraphMethods.CopyThenList | src/hexgraph/HEXGraphMethods.java:203-216 | listing the states of a corrected copy gives exactly the states of the original's dense graph |
| StateSpace.HEXGraphMethods.Copy | src/hexgraph/HEXGraphMethods.java:36-40 | the given graphs and name space, with the memo given |
| StateSpace.HEXGraphMethods.GetSetIndices | src/hexgraph/HEXGraphMethods.java:312-318 | the indices of the labels; fails exactly when a label is unknown |
| StateSpace.HEXGraphMethods.AssignBranches | src/hexgraph/HEXGraphMethods.java:291-301 | the copy gets the pivot and ancestors TRUE and the excluded FALSE, the original the pivot and descendants FALSE; fails exactly when one of those labels is unknown |
| StateSpace.HEXGraphMethods.PivotStep | src/hexgraph/HEXGraphMethods.java:270-301 | a pivot of the graph, the two removed sets, and the two branch configurations; fails only on an unknown label |
| StateSpace.HEXGraphMethods.ListStates | src/hexgraph/HEXGraphMethods.java:260-306 | on a densified graph: fails exactly when the graph has an unknown label; otherwise adds to the accumulator exactly the legal completions of the current configuration |
| StateSpace.HEXGraphMethods.Descend | src/hexgraph/HEXGraphMethods.java:304-305 | the two calls together add exactly the completions of the step's configuration |
| StateSpace.HEXGraphMethods.Recurse | src/hexgraph/HEXGraphMethods.java:304-305 | one call adds exactly the completions on the graph without the removed set |
| StateSpace.HEXGraphMethods.ListStateSpaceOf | src/hexgraph/HEXGraphMethods.java:237-251 | on a densified graph: empty for an empty graph, the memo entry for a graph seen before, and otherwise exactly the graph's states, which it then stores; a missing memo fails |
| StateSpace.HEXGraphMethods.ListStateSpace | src/hexgraph/HEXGraphMethods.java:203-216 | the same on the dense graph, which must be densified |
| StateSpace.HEXGraphMethods.BuildJunctionTree | src/hexgraph/HEXGraphMethods.java:79-102 | the junction tree of the sparse graph with as many classes as the dense graph has labels, with the outcomes of `JunctionTreeOf` |
| StateSpace.HEXGraphMethods.CliqueStateSpace | src/hexgraph/HEXGraphMethods.java:225-228 | the states of the dense graph restricted to the node's members |
| StateSpace.HEXGraphMethods.GetJunctionTreeStateSpaces | src/hexgraph/HEXGraphMethods.java:222-230 | maps exactly the tree's nodes, each to the states of its part of the dense graph; fails exactly when some node's listing fails |
| StateSpace.HEXGraphMethods.CliqueGraph | src/hexgraph/HEXGraph.java:108-120 | the part of the dense graph a junction tree node covers holds exactly the dense labels whose index bit the node holds |
| JunctionTrees.CutBlocksSpanning | src/hexgraph/JunctionTree.java:95-133 | when no positive overlap crosses some split of the nodes, no attachment order of them exists, so the Prim rounds cannot finish |
| JunctionTrees.OverlapCommutes | src/hexgraph/JunctionTreeNode.java:56-64 | the overlap weight does not depend on the order of the two nodes |
| JunctionTrees.FirstSwitch | src/hexgraph/JunctionTree.java:95-133 | an attachment order that starts on one side of a split and later reaches the other has a first position where it crosses |
| JunctionTrees.JunctionTreeNode.constructor | src/hexgraph/JunctionTreeNode.java:20-29 | the members are the name-space indices of the given classes, with no edges and an empty factor |
| JunctionTrees.JunctionTreeNode.AddEdge | src/hexgraph/JunctionTreeNode.java:31-33 | adds the edge to the node's set and leaves its factor alone |
| JunctionTrees.JunctionTreeNode.GetOverlappingSet | src/hexgraph/JunctionTreeNode.java:56-60 | exactly the indices both nodes hold |
| JunctionTrees.JunctionTreeNode.GetOverlap | src/hexgraph/JunctionTreeNode.java:62-64 | the number of shared indices, at most the node's own size |
| JunctionTrees.JunctionTreeNode.GetNeighbors | src/hexgraph/JunctionTreeNode.java:66-72 | the other endpoint of every incident edge |
| JunctionTrees.JunctionTreeNode.Retain | src/hexgraph/JunctionTree.java:135-143 | the iterator walk keeps exactly the incident edges that are in the final tree |
| JunctionTrees.JunctionTreeNode.RemoveEdge | src/hexgraph/JunctionTreeNode.java:39-46 | keeps exactly the edges whose other endpoint is not equal to the given node |
| JunctionTrees.JunctionTreeNode.CollectMessages | src/hexgraph/JunctionTreeNode.java:81-102 | a node with no state space fails; when every node below has scores, the node's new factor is over its members and its state space, each entry its score plus the messages of exactly its child edges, and the result is a copy of it |
| JunctionTrees.JunctionTreeNode.CollectBelow | src/hexgraph/JunctionTreeNode.java:86-101 | past the leaf test: the messages of exactly the child edges are gathered into the factor, which keeps its variables and its configurations |
| JunctionTrees.JunctionTreeNode.CollectSeparators | src/hexgraph/JunctionTreeNode.java:90-95 | the first loop collects one separator per child edge, each equal to the message that edge stores |
| JunctionTrees.JunctionTreeNode.CollectEdge | src/hexgraph/JunctionTreeNode.java:91-95 | one pass of the first loop: an edge touching the parent is skipped, any other edge gets a stored message, and the separators already collected keep theirs; a failure below is reported |
| JunctionTrees.JunctionTreeNode.CollectOver | src/hexgraph/JunctionTreeNode.java:92-94 | one child edge's collection stores a fresh message and returns a copy of it, leaving the separators already collected unchanged |
| JunctionTrees.JunctionTreeNode.AbsorbSeparators | src/hexgraph/JunctionTreeNode.java:97-99 | the second loop: each factor entry gains exactly the messages of every separator, in any order |
| JunctionTrees.JunctionTreeNode.PropagateMessages | src/hexgraph/JunctionTreeNode.java:107-116 | a node entered over an edge absorbs the proper factor first; it fails only when some node below lacks variables, and otherwise sends the projection of its factor over every child edge |
| JunctionTrees.JunctionTreeNode.PropagateChildren | src/hexgraph/JunctionTreeNode.java:111-115 | the loop sends over every edge but the parent edge and leaves the node's own factor alone |
| JunctionTrees.JunctionTreeNode.PropagateStep | src/hexgraph/JunctionTreeNode.java:112-114 | one pass skips the parent edge and sends over any other, moving the loop on by that edge |
| JunctionTrees.JunctionTreeNode.PropagateOver | src/hexgraph/JunctionTreeNode.java:113 | sending over one child edge sends the projection of the node's factor onto the overlap with the child |
| JunctionTrees.JunctionTreeEdge.constructor | src/hexgraph/JunctionTree.java:298-305 | the endpoints as given, the weight their overlap, and three fresh empty factors |
| JunctionTrees.JunctionTreeEdge.Contains | src/hexgraph/JunctionTree.java:354-357 | a null node is never an endpoint |
| JunctionTrees.JunctionTreeEdge.CollectMessages | src/hexgraph/JunctionTree.java:328-338 | a caller that is not an endpoint fails with IllegalState; otherwise the far endpoint collects, the edge stores the projection of its factor onto the overlap, and the result is a copy of that message |
| JunctionTrees.JunctionTreeEdge.PropagateMessages | src/hexgraph/JunctionTree.java:343-352 | a caller that is not an endpoint fails with IllegalState; a caller whose factor lacks the overlap fails with IllegalArgument; otherwise the edge stores the projection of the caller's factor as `phiStarStar` and that projection divided by the old `phiStar` as `divided`, and the far endpoint's factor absorbs the projection |
| JunctionTrees.JunctionTreeEdge.Deliver | src/hexgraph/JunctionTree.java:347-351 | past the endpoint check: the edge stores the projection as `phiStarStar` and its quotient by the old `phiStar` as `divided`, and the far endpoint absorbs the projection |
| JunctionTrees.JunctionTreeEdge.Forward | src/hexgraph/JunctionTree.java:351 | the far endpoint, entered over this edge, absorbs the message and propagates on, while the edge's own two messages stay as sent |
| JunctionTrees.JunctionTreeEdge.Send | src/hexgraph/JunctionTree.java:347-349 | the message is the caller's factor projected onto the overlap, and the divided factor is that message over the stored one; a caller lacking the overlap fails and changes nothing |
| JunctionTrees.OtherEndpoint | src/hexgraph/JunctionTree.java:359-361 | between endpoints with different members, `getOther` swaps them |
| JunctionTrees.OverlapSymmetric | src/hexgraph/JunctionTreeNode.java:56-64 | the overlapping set and its size are symmetric, and the size is bounded by both sides |
| JunctionTrees.JunctionTree.constructor | src/hexgraph/JunctionTree.java:29-34 | an empty tree over the given name space and class count |
| JunctionTrees.JunctionTree.NodeConsumes | src/hexgraph/JunctionTree.java:36-44 | true exactly when the node holds the index of every member; an unknown member can fail the lookup |
| JunctionTrees.JunctionTree.AddNode | src/hexgraph/JunctionTree.java:46-52 | when some node already holds every member nothing changes; otherwise exactly one new node over the members is added; an unknown member fails |
| JunctionTrees.JunctionTree.BuildCandidates | src/hexgraph/JunctionTree.java:82-90 | every pair of distinct nodes gets a candidate edge, registered at both endpoints when its weight is positive, and every node is unseen |
| JunctionTrees.JunctionTree.AddEdgesFrom | src/hexgraph/JunctionTree.java:83-87 | the inner loop adds the candidate from the first node to every other node |
| JunctionTrees.JunctionTree.Heaviest | src/hexgraph/JunctionTree.java:96-104 | null exactly when there is no edge; otherwise an edge of the set weighing at least each of them |
| JunctionTrees.JunctionTree.HeaviestCrossing | src/hexgraph/JunctionTree.java:115-122 | null exactly when no edge leaves the seen nodes; otherwise a heaviest one of those that do |
| JunctionTrees.JunctionTree.FirstRound | src/hexgraph/JunctionTree.java:98-113 | stops when the start node has no edge; otherwise its heaviest edge starts the tree |
| JunctionTrees.JunctionTree.NextRound | src/hexgraph/JunctionTree.java:114-132 | fails with IllegalState when no edge crosses from the seen nodes; otherwise the heaviest crossing edge attaches one more node |
| JunctionTrees.JunctionTree.Span | src/hexgraph/JunctionTree.java:92-133 | the Prim rounds either stop early at an isolated start node, fail on a disconnected overlap graph, or give a greedy spanning tree with one edge fewer than nodes |
| JunctionTrees.JunctionTree.BuildEdges | src/hexgraph/JunctionTree.java:71-150 | fails only on a disconnected overlap graph; otherwise either no edge is added and some node is isolated, or the tree gets the edges of a greedy spanning tree, each node keeps exactly its tree edges, and no spanning tree of positive-overlap edges weighs more than the tree chosen |
| JunctionTrees.JunctionTree.BuildPrunedEdges | src/hexgraph/JunctionTree.java:104-107 | the corrected `buildEdges`, which prunes on the early return too: on success every node keeps exactly its incident edges of the chosen links, which are an attached greedy tree unless some node is isolated, and no spanning tree of positive-overlap edges weighs more |
| JunctionTrees.GreedyHeaviest | src/hexgraph/JunctionTree.java:71-75 | an attached greedy order gives a maximum spanning tree: no spanning tree of positive-overlap edges between the nodes weighs more |
| JunctionTrees.GreedyOutweighs | src/hexgraph/JunctionTree.java:92-133 | any one spanning tree of positive-overlap edges weighs at most the tree of the Prim rounds |
| JunctionTrees.Positions | src/hexgraph/JunctionTree.java:92-133 | the other tree's nodes, numbered by their place in the Prim order, form a tree in that numbering, each node listed once |
| JunctionTrees.CrossingLighter | src/hexgraph/JunctionTree.java:114-122 | an edge of the other tree that crosses the cut of Prim round c weighs at most the link that round chose |
| JunctionTrees.TrivialHeaviest | src/hexgraph/JunctionTree.java:104-106 | with no node, or with a node sharing no label with any other, no spanning tree of positive-overlap edges exists beyond a single node, so the empty edge list is a heaviest one |
| JunctionTrees.SpanningTouches | src/hexgraph/JunctionTree.java:92-133 | in a spanning tree of positive-overlap edges over two nodes or more, every node overlaps some other node |
| JunctionTrees.PrunedRooted | src/hexgraph/JunctionTree.java:135-144 | once every node holds exactly its incident edges of an attached tree (or of no edge at all), the tree can be rooted at any node, which is what the message passes require |
| JunctionTrees.CandidatesUnrooted | src/hexgraph/JunctionTree.java:104-106 | while every node still holds all its candidate edges, two overlapping nodes make the tree impossible to root anywhere |
| JunctionTrees.ParallelUnrooted | src/hexgraph/JunctionTree.java:82-90 | two distinct edges between the same two nodes, both registered at one of them, rule out every rooting |
| JunctionTrees.JunctionTree.PruneAll | src/hexgraph/JunctionTree.java:135-144 | each node keeps exactly its incident edges of the final set, and the tree gains that set |
| JunctionTrees.JunctionTree.AddEdge | src/hexgraph/JunctionTree.java:54-60 | a new edge weighing the overlap, registered at both endpoints exactly when that weight is nonzero |
| JunctionTrees.CandidatesRegistered | src/hexgraph/JunctionTree.java:82-90 | the built candidates are the registered edges of every pair |
| JunctionTrees.CrossingBound | src/hexgraph/JunctionTree.java:115-122 | when every registered crossing edge weighs at most w, every overlap across does too |
| JunctionTrees.AttachedExtend | src/hexgraph/JunctionTree.java:126-130 | attaching a new node by a positive edge to a seen one keeps the order attached |
| JunctionTrees.GreedyExtend | src/hexgraph/JunctionTree.java:115-130 | adding an edge weighing at least every overlap leaving the order keeps the order greedy |
| JunctionTrees.OtherEnd | src/hexgraph/JunctionTree.java:359-361 | at an endpoint, `getOther` of an incident edge is the other node of the tree |
| JunctionTrees.PartitionStep | src/hexgraph/JunctionTree.java:127-130 | moving the endpoints into the seen set keeps seen and unseen a partition and shrinks the unseen |
| JunctionTrees.LinksStep | src/hexgraph/JunctionTree.java:126 | the new final edge is new and registered at both seen endpoints |
| JunctionTrees.Grow | src/hexgraph/JunctionTree.java:114-132 | a round with the heaviest crossing edge keeps the greedy attachment invariant and shrinks the unseen |
| JunctionTrees.PrunedValid | src/hexgraph/JunctionTree.java:135-144 | nodes that hold exactly their edges of a sound edge set meet the edge invariant |
| JunctionTrees.ChildStep | src/hexgraph/JunctionTreeNode.java:92 | an edge leads to a child exactly when it does not contain the parent node, that is when it is not the parent edge |
| JunctionTrees.ChildShallow | src/hexgraph/JunctionTreeNode.java:91-95 | a child edge touches the node and is the parent edge of a node exactly one level below |
| JunctionTrees.ChildEntered | src/hexgraph/JunctionTree.java:334 | the far end of a child edge is a tree node entered from this one |
| JunctionTrees.DeeperShrinks | src/hexgraph/JunctionTreeNode.java:81-116 | deeper levels hold fewer nodes and fewer edges |
| JunctionTrees.LeafHasNoChildren | src/hexgraph/JunctionTreeNode.java:86-88 | a node with a parent and a single edge has no child edges, so the leaf shortcut skips nothing |
| JunctionTrees.ProgressAdd | src/hexgraph/JunctionTreeNode.java:112-114 | sending over a child edge moves the loop over the node's edges one edge on |
| JunctionTrees.ProgressSkip | src/hexgraph/JunctionTreeNode.java:112 | skipping the parent edge moves that loop one edge on |
| JunctionTrees.FactorOutside | src/hexgraph/JunctionTreeNode.java:107-116 | a node's factor is among those from its level on but not among those below it |
| JunctionTrees.ClearAdd | src/hexgraph/JunctionTreeNode.java:90-95 | adding a separator other than the node's factor keeps the separators apart from it |
| JunctionTrees.CoveredBelow | src/hexgraph/JunctionTreeNode.java:107-116 | coverage from a node's level on covers the node and everything below it |
| JunctionTrees.EqualsEquivalence | src/hexgraph/JunctionTreeNode.java:124-129 | node `equals` is reflexive, symmetric and transitive, and a node overlaps an equal node in all its members |
| JunctionTrees.JunctionTreeEdge.GetOther | src/hexgraph/JunctionTree.java:359-361 | the result is one of the two endpoints, and a node that is neither endpoint gets the first |
| JunctionTrees.JunctionTree.GetNodeSet | src/hexgraph/JunctionTree.java:62-64 | in a valid tree no two of the returned nodes are equal |
| Spanning.GreedyOutweighs | src/hexgraph/JunctionTree.java:71-75 | the exchange argument for Prim's algorithm on positions: when every edge of a tree weighs at most each greedy link whose cut it crosses, the tree weighs at most the greedy links together |
| Spanning.ForestBound | src/hexgraph/JunctionTree.java:92-133 | the edges of a tree with both ends among positions a to k number at most k - a, as in any forest |
| Spanning.Threshold | src/hexgraph/JunctionTree.java:92-133 | for every threshold t, a tree whose edges are each outweighed by the greedy links their cuts cross has no more edges weighing t or more than the greedy links have |
| Sparse.PairSumRemove | src/util/SparseVector.java:62-77 | the sum of products over a set splits off any one of its indices |
| Sparse.PairSumIsDenseDot | src/util/SparseVector.java:62-77 | summing the products over any index set that holds every index with a nonzero product gives the dense dot product |
| Sparse.AtStored | src/util/SparseVector.java:38-42 | after `put(i, v)` index i reads v and every other index reads as before |
| Sparse.StoredNoZeros | src/util/SparseVector.java:40 | `put` inside the bounds never stores a zero |
| Sparse.NnzCountsNonzeros | src/util/SparseVector.java:52-54 | with no stored zeros, the number of stored entries is the number of nonzero indices |
| Sparse.SparseVector.constructor | src/util/SparseVector.java:16-19 | a vector of the given length, all of whose entries are zero |
| Sparse.SparseVector.Put | src/util/SparseVector.java:38-42 | fails exactly outside `[0, n)` and then changes nothing; otherwise index i reads the value, a zero removes the entry, and every other index is unchanged |
| Sparse.SparseVector.Get | src/util/SparseVector.java:45-49 | fails exactly outside `[0, n)`; a nonzero value is a stored one |
| Sparse.SparseVector.Nnz | src/util/SparseVector.java:52-54 | the number of indices with a nonzero value |
| Sparse.SparseVector.NzIndices | src/util/SparseVector.java:88-90 | exactly the indices with a nonzero value |
| Sparse.SparseVector.ScanEntries | src/util/SparseVector.java:22-28 | a window that runs backwards gives a vector of negative length with no entry |
| Sparse.SparseVector.SubVector | src/util/SparseVector.java:21-35 | fails exactly when a forward window leaves `[0, n)`; otherwise entry j of the fresh vector of length `to - from` is entry `from + j` inside the window |
| Sparse.SparseVector.Dot | src/util/SparseVector.java:62-77 | fails exactly when the lengths disagree, and otherwise is the dense dot product |
| Sparse.SparseVector.DotArray | src/util/SparseVector.java:79-86 | fails exactly when the lengths disagree, and otherwise is the dense dot product with the array |
| Sparse.SparseVector.Scale | src/util/SparseVector.java:99-104 | a fresh vector of the same length with every entry multiplied by alpha |
| Sparse.SparseVector.Plus | src/util/SparseVector.java:107-114 | fails exactly when the lengths disagree; otherwise a fresh vector of the entrywise sums |
| Sparse.SparseVector.Minus | src/util/SparseVector.java:117-124 | fails exactly when the lengths disagree; otherwise a fresh vector of the entrywise differences |
| Sparse.SparseVector.MinusArray | src/util/SparseVector.java:126-133 | fails exactly when the lengths disagree; otherwise a fresh vector holding each entry minus the array's |
| Sparse.SparseVector.Copy | src/util/SparseVector.java:110-111 | a fresh vector with the same length and entries |
| Sparse.SumCommon | src/util/SparseVector.java:68-75 | the loop adds the product at every stored index of the outer vector |
| Sparse.DenseDotSymmetric | src/util/SparseVector.java:62-77 | the dot product does not depend on which side is walked |
| Sparse.RowCellsSize | src/util/SparseMatrix.java:71-76 | a row contributes as many cells as it stores entries |
| Sparse.CellsSplit | src/util/SparseMatrix.java:71-76 | the cells of the first k rows are those of the first k - 1 and the cells of row k - 1, which are disjoint |
| Sparse.NnzOfCountsCells | src/util/SparseMatrix.java:71-76 | the row-by-row sum is the number of stored cells |
| Sparse.SparseMatrix.Rows | src/util/SparseMatrix.java:9 | one entry map per row |
| Sparse.SparseMatrix.constructor | src/util/SparseMatrix.java:11-15 | height distinct fresh zero rows of the given width |
| Sparse.SparseMatrix.Of | src/util/SparseMatrix.java:17-20 | shares the given array and takes its width from the first row |
| Sparse.SparseMatrix.FromRows | src/util/SparseMatrix.java:17-20 | an empty array fails its first read; otherwise a matrix sharing the array |
| Sparse.SparseMatrix.GetSubMatrix | src/util/SparseMatrix.java:22-24 | fails exactly on an empty or negative range, and otherwise shares the row objects `s .. e - 1` in a fresh array; a sub-matrix of a valid matrix is valid |
| Sparse.SparseMatrix.GetSubColMatrix | src/util/SparseMatrix.java:26-32 | fails exactly when a forward window leaves the columns of a non-empty matrix; otherwise each fresh row is the column window of the old one |
| Sparse.SparseMatrix.SubVector | src/util/SparseMatrix.java:34-36 | a row outside the array fails; otherwise the window of that row |
| Sparse.SparseMatrix.GetRow | src/util/SparseMatrix.java:38-40 | fails exactly outside the rows; otherwise the row object itself |
| Sparse.SparseMatrix.Get | src/util/SparseMatrix.java:64-68 | fails exactly when either index is out of range |
| Sparse.SparseMatrix.Put | src/util/SparseMatrix.java:52-56 | fails exactly when either index is out of range; otherwise only that row changes and the cell reads the value |
| Sparse.SparseMatrix.GetRowNZ | src/util/SparseMatrix.java:58-61 | fails exactly outside the rows; otherwise exactly the columns whose cell is nonzero |
| Sparse.SparseMatrix.Nnz | src/util/SparseMatrix.java:71-76 | the number of stored cells, which are exactly the nonzero cells |
| Sparse.SparseMatrix.Dot | src/util/SparseMatrix.java:79-86 | fails exactly when the width disagrees; otherwise entry i is row i dot x |
| Sparse.SparseMatrix.DotArray | src/util/SparseMatrix.java:89-96 | fails exactly when the width disagrees; otherwise a fresh array of the row products |
| Sparse.SparseMatrix.ColumnDot | src/util/SparseMatrix.java:99-108 | fails exactly when the height disagrees; otherwise entry j is the sum over the rows of x[i] times cell (i, j) |
| Sparse.SparseMatrix.Plus | src/util/SparseMatrix.java:111-118 | fails exactly when either dimension disagrees; otherwise fresh rows of the entrywise sums |
| Sparse.SparseMatrix.ShuffleRows | src/util/SparseMatrix.java:130-140 | the rows afterwards are a permutation of the rows before |
| Sparse.SameElements | src/util/SparseMatrix.java:130-140 | a permutation holds the same rows |
| Sparse.SparseVector.Size | src/util/SparseVector.java:57-59 | in a valid vector every stored index lies below the size |
| Sparse.SparseMatrix.GetRows | src/util/SparseMatrix.java:42-44 | the number of rows |
| Sparse.SparseMatrix.GetCols | src/util/SparseMatrix.java:46-48 | in a valid matrix every row has this width as its size |
| LegacyGraphs.ChildMap | src/HEXGraph.java:303 | the hierarchy edges as a relation: each label's successors are its direct children |
| LegacyGraphs.RelationshipConverse | src/HEXGraph.java:362-372 | in an acyclic graph with paired exclusions, swapping the two labels turns super into sub, sub into super, and keeps exclusion and overlap |
| LegacyGraphs.ExclusionLinked | src/HEXGraph.java:59-65 | the state after `addExclusion` on present labels keeps the label set |
| LegacyGraphs.HierarchyLinked | src/HEXGraph.java:51-56 | the state after `addHierarchy` on present labels keeps the label set |
| LegacyGraphs.Unlinked | src/HEXGraph.java:428-432 | the state after `removeEdges` keeps the label set |
| LegacyGraphs.Minus | src/HEXGraph.java:76-81 | the label set without the deleted label |
| LegacyGraphs.GrownTrans | src/HEXGraph.java:209-220 | gaining edges twice is gaining edges |
| LegacyGraphs.ExclusionLinkedFacts | src/HEXGraph.java:59-65 | `addExclusion` keeps the hierarchy, records the second label at the first and, unless it was already there, the first at the second, and changes no other node |
| LegacyGraphs.ExclusionLinkedSymmetric | src/HEXGraph.java:59-65 | on a graph whose exclusions come in pairs, `addExclusion` adds exactly the pair |
| LegacyGraphs.HierarchyLinkedFacts | src/HEXGraph.java:51-56 | `addHierarchy` adds exactly the child to the parent and changes nothing else |
| LegacyGraphs.MinusFacts | src/HEXGraph.java:76-81 | deleting a node leaves a closed graph in which no node mentions it, and deleting an absent label changes nothing |
| LegacyGraphs.RemoveMatching | src/HEXGraph.java:439-447 | the iterator walk removes exactly the head from the set |
| LegacyGraphs.ListOf | src/HEXGraph.java:155-175 | the list holds each element of the set exactly once |
| LegacyGraphs.CheckNode | src/HEXGraph.java:464-471 | passes exactly when no direct child is also excluded, and otherwise fails with IllegalState |
| LegacyGraphs.AbsorbedStep | src/HEXGraph.java:211-215 | taking one more ancestor's exclusions extends the set of ancestors absorbed |
| LegacyGraphs.AbsorbedKept | src/HEXGraph.java:211-215 | later growth of the node's exclusions keeps what was absorbed |
| LegacyGraphs.InheritedSymmetric | src/HEXGraph.java:209-220 | the exclusion a graph implies between two labels holds in both directions |
| LegacyGraphs.InheritedDown | src/HEXGraph.java:211-215 | what a label is implied to exclude, each of its descendants is too |
| LegacyGraphs.DensifyingStart | src/HEXGraph.java:209-210 | a closed graph meets the `densify` invariants with no label done |
| LegacyGraphs.DensifyingReach | src/HEXGraph.java:209-220 | while densifying, the descendant relation is that of the starting graph |
| LegacyGraphs.AncestorsAgree | src/HEXGraph.java:375-388 | graphs with the same labels and descendant relation have the same ancestors |
| LegacyGraphs.ExclusionStep | src/HEXGraph.java:213 | one implied `addExclusion` keeps the `densify` invariant and records the exclusion |
| LegacyGraphs.BoundedStep | src/HEXGraph.java:213 | an implied new exclusion keeps every exclusion implied by the starting graph |
| LegacyGraphs.DensifyingGrows | src/HEXGraph.java:210-220 | a graph that only gained implied edges keeps what `densify` has done |
| LegacyGraphs.DescendantsFrom | src/HEXGraph.java:217 | the descendants a densifying graph reports are those of the starting graph |
| LegacyGraphs.AdoptedCloses | src/HEXGraph.java:217-219 | once every reported descendant is a direct child, the children are closed |
| LegacyGraphs.AdoptedStep | src/HEXGraph.java:218 | one more `addHierarchy` extends the set adopted |
| LegacyGraphs.HierarchyStep | src/HEXGraph.java:218 | one `addHierarchy` towards a descendant keeps the invariant and makes it a direct child |
| LegacyGraphs.PairsStep | src/HEXGraph.java:210-220 | after a label is done, each implied exclusion it takes part in is recorded at both ends |
| LegacyGraphs.DensifyingDone | src/HEXGraph.java:210-220 | a label with absorbed exclusions and closed children joins the labels done |
| LegacyGraphs.DensifyResult | src/HEXGraph.java:209-222 | after every label is done the graph is densified |
| LegacyGraphs.DensifiedExclusions | src/HEXGraph.java:209-222 | in a densified graph two distinct labels exclude each other exactly when the starting graph implies it, and in both directions |
| LegacyGraphs.HEXGraph.constructor | src/HEXGraph.java:23-25 | an empty graph |
| LegacyGraphs.HEXGraph.Size | src/HEXGraph.java:230-232 | the number of labels the graph holds: every set of exactly the labels `HasNode` accepts has this size |
| LegacyGraphs.HEXGraph.IsEmpty | src/HEXGraph.java:239-241 | true exactly when there is no label |
| LegacyGraphs.HEXGraph.AddNode | src/HEXGraph.java:36-42 | adds an edgeless node and returns true exactly when the label is new; otherwise nothing changes |
| LegacyGraphs.HEXGraph.AddHierarchy | src/HEXGraph.java:51-56 | with a missing label returns false and changes nothing; otherwise adds the child and returns whether it was new |
| LegacyGraphs.HEXGraph.AddExclusion | src/HEXGraph.java:59-65 | with a missing label returns false and changes nothing; otherwise adds the pair as far as the `&&` chain goes and returns true exactly when both directions were new and the labels differ |
| LegacyGraphs.HEXGraph.RemoveEdges | src/HEXGraph.java:428-432 | removes both edge kinds from one node to the head and reports success |
| LegacyGraphs.HEXGraph.DeleteNode | src/HEXGraph.java:76-81 | the label and every edge to it are gone; an absent label changes nothing |
| LegacyGraphs.HEXGraph.Unlink | src/HEXGraph.java:93-100 | a missing first label fails on the null node and changes nothing; otherwise both edge kinds from it to the second go, in one direction only |
| LegacyGraphs.HEXGraph.DeleteHierarchyEdge | src/HEXGraph.java:93-95 | the same as `Unlink`, so an exclusion between the pair goes too |
| LegacyGraphs.HEXGraph.DeleteExclusion | src/HEXGraph.java:98-100 | the same as `Unlink`, so a hierarchy edge between the pair goes too |
| LegacyGraphs.HEXGraph.HasHierarchyEdge | src/HEXGraph.java:110-112 | fails for a missing tail; otherwise true exactly when the head is a descendant, not only a direct child |
| LegacyGraphs.HEXGraph.HasExclusion | src/HEXGraph.java:119-121 | fails for a missing first label; otherwise true exactly when the second is in its excluded set |
| LegacyGraphs.HEXGraph.GetExcluded | src/HEXGraph.java:183-190 | fails for a missing label; otherwise exactly the labels `hasExclusion` confirms |
| LegacyGraphs.HEXGraph.GetDegree | src/HEXGraph.java:250-255 | fails for a missing label; otherwise the count of its children plus its exclusions |
| LegacyGraphs.HEXGraph.GetNodes | src/HEXGraph.java:262-268 | every label exactly once |
| LegacyGraphs.HEXGraph.SupersetOf | src/HEXGraph.java:375-388 | exactly the labels of which the node is a descendant |
| LegacyGraphs.HEXGraph.GetHierarchySuperset | src/HEXGraph.java:155-161 | fails for a missing label; otherwise its ancestors, each once |
| LegacyGraphs.HEXGraph.GetHierarchySubset | src/HEXGraph.java:169-175 | fails for a missing label; otherwise its descendants, each once |
| LegacyGraphs.HEXGraph.GetRelationship | src/HEXGraph.java:131-133 | fails for a missing first label; otherwise super, sub, exclusion or overlapping, in that order of precedence |
| LegacyGraphs.HEXGraph.CheckInvariant | src/HEXGraph.java:276-280 | passes exactly when no node excludes one of its direct children, and otherwise fails with IllegalState |
| LegacyGraphs.HEXGraph.Sparsify | src/HEXGraph.java:200-202 | the graph is unchanged |
| LegacyGraphs.HEXGraph.DensifyExclusion | src/HEXGraph.java:213 | the node gains the implied exclusion, keeping the invariant |
| LegacyGraphs.HEXGraph.DensifyAncestor | src/HEXGraph.java:212-214 | the node ends up excluding everything the ancestor excluded |
| LegacyGraphs.HEXGraph.DensifyExclusions | src/HEXGraph.java:211-215 | the node absorbs the exclusions of all its ancestors |
| LegacyGraphs.HEXGraph.DensifyChild | src/HEXGraph.java:218 | the descendant becomes a direct child |
| LegacyGraphs.HEXGraph.DensifyHierarchy | src/HEXGraph.java:217-219 | every descendant becomes a direct child |
| LegacyGraphs.HEXGraph.DensifyNode | src/HEXGraph.java:210-220 | one label's pass finishes that label |
| LegacyGraphs.HEXGraph.Densify | src/HEXGraph.java:209-222 | only implied edges are added and the descendant relation is kept; each label's direct children become exactly its starting descendants and it excludes what its ancestors excluded; paired exclusions stay paired; passes exactly when no node excludes a direct child |
| LegacyGraphs.ReachedInside | src/HEXGraph.java:391-397 | a closed graph holds every descendant of its nodes |
| LegacyConfigurations.WrittenKeepsSet | src/Configuration.java:66-76 | a label that already holds a value keeps it through `setValues` |
| LegacyConfigurations.WrittenAgain | src/Configuration.java:66-76 | repeating a successful `setValues` succeeds again and changes nothing |
| LegacyConfigurations.WrittenCovers | src/Configuration.java:66-76 | after a successful `setValues` the configuration holds the written value at every written label and the old entry at every other label |
| LegacyConfigurations.RestrictCovered | src/Configuration.java:135-144 | trimming keeps exactly the labels in both sets, the receiver covers the result, and trimming twice is trimming once |
| LegacyConfigurations.CoversReflexive | src/Configuration.java:112-119 | every configuration subsumes itself |
| LegacyConfigurations.CoversTransitive | src/Configuration.java:112-119 | subsumption is transitive |
| LegacyConfigurations.EqualIffCovering | src/Configuration.java:123-128 | two configurations are equal exactly when each subsumes the other |
| LegacyConfigurations.SameSizeSubset | src/Configuration.java:96-107 | a key set inside another of the same size is equal to it |
| LegacyConfigurations.Configuration.Empty | src/Configuration.java:15-17 | no labels |
| LegacyConfigurations.Configuration.constructor | src/Configuration.java:19-26 | exactly the given classes, each unset |
| LegacyConfigurations.Configuration.Get | src/Configuration.java:44-46 | the stored value; unboxing the missing value of an absent label throws |
| LegacyConfigurations.Configuration.IsSet | src/Configuration.java:32-34 | true exactly when the label holds TRUE; an absent label throws |
| LegacyConfigurations.Configuration.ContainsMapping | src/Configuration.java:36-41 | comparing values as integers, true exactly when every entry of the mapping is an entry of the receiver |
| LegacyConfigurations.Configuration.GetDeepCopy | src/Configuration.java:58-64 | a fresh configuration with the same entries |
| LegacyConfigurations.Configuration.SetValues | src/Configuration.java:66-76 | true exactly when every class is present and unset or already the value, and then all are written; it stops at the first absent class (throwing) or conflicting class (false), keeping the writes before it |
| LegacyConfigurations.Configuration.SetValue | src/Configuration.java:78-86 | an absent label throws and changes nothing; otherwise writes and returns true exactly when the label is unset or already holds the value |
| LegacyConfigurations.Configuration.HasSameEntries | src/Configuration.java:96-107 | true exactly when both hold the same labels, whatever their values |
| LegacyConfigurations.Configuration.IsSubsumed | src/Configuration.java:112-119 | true exactly when every entry of the other is an entry of the receiver |
| LegacyConfigurations.Configuration.Trim | src/Configuration.java:135-144 | keeps exactly the entries whose labels are in the given set |
| LegacyConfigurations.Configuration.KeySet | src/Configuration.java:48-50 | exactly the labels that `contains` accepts |
| LegacyConfigurations.Configuration.Equals | src/Configuration.java:123-128 | true exactly when the key sets agree and every label gets the same value |
| LegacyJunctionTrees.CutBlocksSpanning | src/JunctionTree.java:90-128 | no attachment order with positive-weight links crosses a set of nodes that shares no label with the rest |
| LegacyJunctionTrees.IsolatedCut | src/JunctionTree.java:93-101 | with two nodes or more, a node sharing no label with any other is such a cut by itself |
| LegacyJunctionTrees.OverlapCommutes | src/JunctionTree.java:202-210 | the overlap count of two nodes does not depend on which one asks |
| LegacyJunctionTrees.FirstSwitch | src/JunctionTree.java:90-128 | in an order that starts on one side of a set and later reaches the other, there is a first position on the other side |
| LegacyJunctionTrees.JunctionTreeNode.AddEdge | src/JunctionTree.java:171-173 | the edge set gains exactly the given edge |
| LegacyJunctionTrees.JunctionTreeNode.GetOverlappingSet | src/JunctionTree.java:192-200 | the result is exactly the labels both nodes hold |
| LegacyJunctionTrees.JunctionTreeNode.GetOverlap | src/JunctionTree.java:202-210 | the count is the number of shared labels, so never more than the node's own members |
| LegacyJunctionTrees.JunctionTreeNode.GetNeighbors | src/JunctionTree.java:212-218 | the neighbours are exactly the other endpoints of the incident edges |
| LegacyJunctionTrees.JunctionTreeNode.RemoveEdge | src/JunctionTree.java:179-186 | exactly the edges whose other endpoint has the same members as `other` are dropped |
| LegacyJunctionTrees.OverlapSymmetric | src/JunctionTree.java:192-210 | the shared labels and their number are the same from either node, and bounded by each node's members |
| LegacyJunctionTrees.JunctionTreeEdge.CheckCaller | src/JunctionTree.java:296-305 | the collect guard passes exactly for a caller equal to an endpoint and otherwise fails with IllegalState |
| LegacyJunctionTrees.OtherEnd | src/JunctionTree.java:314-320 | in a valid tree an incident edge leads to another node and back again, and both endpoints pass the collect guard |
| LegacyJunctionTrees.StrangerRefused | src/JunctionTree.java:296-305 | a node whose members differ from both endpoints' is refused with IllegalState |
| LegacyJunctionTrees.JunctionTree.GetFirst | src/JunctionTree.java:61-64 | an empty tree fails with NoSuchElement; otherwise the result is one of the nodes |
| LegacyJunctionTrees.JunctionTree.NodeConsumes | src/JunctionTree.java:31-39 | true exactly when the node holds every given label |
| LegacyJunctionTrees.JunctionTree.AddNode | src/JunctionTree.java:41-47 | nothing changes when a node already holds every label; otherwise exactly one fresh node over those labels is added; afterwards some node holds them |
| LegacyJunctionTrees.JunctionTree.BuildCandidates | src/JunctionTree.java:77-85 | every node gets the candidate edge to every other node it overlaps, and the last node visited is the start node, null only for an empty tree |
| LegacyJunctionTrees.JunctionTree.AddEdgesFrom | src/JunctionTree.java:78-82 | after the inner loop `first` is joined to every node it overlaps |
| LegacyJunctionTrees.JunctionTree.AddCandidate | src/JunctionTree.java:79-81 | one step of the inner loop keeps the candidate edges registered and covers `second` too |
| LegacyJunctionTrees.JunctionTree.Heaviest | src/JunctionTree.java:94-99 | null exactly for no edges; otherwise an edge of the set no other edge outweighs |
| LegacyJunctionTrees.JunctionTree.HeaviestCrossing | src/JunctionTree.java:110-117 | null exactly when no edge leads from a seen node to an unseen one; otherwise such an edge no other crossing edge outweighs |
| LegacyJunctionTrees.JunctionTree.FirstRound | src/JunctionTree.java:93-108 | a start node with no overlap fails with IllegalState; otherwise the heaviest edge at it joins its two endpoints into the seen part |
| LegacyJunctionTrees.JunctionTree.NextRound | src/JunctionTree.java:109-127 | fails with IllegalState only when the seen nodes share no label with the rest; otherwise one more node is attached by a heaviest crossing edge |
| LegacyJunctionTrees.JunctionTree.Span | src/JunctionTree.java:88-128 | fails only when the overlap graph is disconnected; otherwise every node is attached, one edge fewer than nodes is picked, and each pick outweighs every overlap leaving the nodes before it |
| LegacyJunctionTrees.JunctionTree.BuildEdges | src/JunctionTree.java:66-139 | throws IllegalState only when the overlaps leave a node isolated or split the nodes (a single node included); otherwise it picks a greedy spanning tree with one edge fewer than nodes, while the tree's own node and edge sets stay as they were and no node loses an edge; no spanning tree of positive-overlap edges weighs more than the one picked |
| LegacyJunctionTrees.GreedyHeaviest | src/JunctionTree.java:66-70 | an attached greedy order gives a maximum spanning tree: no spanning tree of positive-overlap edges between the nodes weighs more |
| LegacyJunctionTrees.GreedyOutweighs | src/JunctionTree.java:88-128 | any one spanning tree of positive-overlap edges weighs at most the tree of the Prim rounds |
| LegacyJunctionTrees.Positions | src/JunctionTree.java:88-128 | the other tree's nodes, numbered by their place in the Prim order, form a tree in that numbering |
| LegacyJunctionTrees.CrossingLighter | src/JunctionTree.java:109-117 | an edge of the other tree that crosses the cut of Prim round c weighs at most the link that round chose |
| LegacyJunctionTrees.JunctionTree.AddEdge | src/JunctionTree.java:49-55 | the new edge weighs the overlap of its endpoints and is registered at both exactly when that weight is nonzero |
| LegacyJunctionTrees.SpanningConnected | src/JunctionTree.java:88-128 | a successful Prim search over two nodes or more leaves no cut and no isolated node, so failure and success are exact opposites |
| LegacyJunctionTrees.CoversStep | src/JunctionTree.java:77-85 | finishing the inner loop for `first` extends the nodes whose candidate edges are all in place |
| LegacyJunctionTrees.CandidatesRegistered | src/JunctionTree.java:77-85 | after the first loop every overlapping pair of nodes is joined by a registered candidate edge |
| LegacyJunctionTrees.CrossingBound | src/JunctionTree.java:109-117 | when every registered crossing edge weighs at most `w`, so does every overlap between the seen and unseen nodes |
| LegacyJunctionTrees.AttachedExtend | src/JunctionTree.java:118-125 | attaching one unseen node through a positive-weight edge to a seen one keeps the order attached |
| LegacyJunctionTrees.GreedyExtend | src/JunctionTree.java:109-125 | a link weighing at least every overlap leaving the order keeps the order greedy |
| LegacyJunctionTrees.PartitionStep | src/JunctionTree.java:118-125 | moving the new node across keeps seen and unseen a partition of the nodes and shrinks the unseen part |
| LegacyJunctionTrees.LinksStep | src/JunctionTree.java:118-125 | the picked edge is new to the final edge set and is registered at two seen endpoints |
| LegacyJunctionTrees.Grow | src/JunctionTree.java:109-127 | a Prim round with the heaviest crossing edge attaches exactly one more node and keeps the greedy spanning invariant |
| LegacyJunctionTrees.JunctionTreeNode.constructor | src/JunctionTree.java:162-169 | a node over a copy of the given members, with no edges |
| LegacyJunctionTrees.JunctionTreeEdge.constructor | src/JunctionTree.java:280-285 | the given endpoints, weighted by their overlap |
| LegacyJunctionTrees.JunctionTree.constructor | src/JunctionTree.java:26-29 | an empty, valid tree |
| LegacyJunctionTrees.EqualsEquivalence | src/JunctionTree.java:259-266 | node `equals` is reflexive, symmetric and transitive, and a node overlaps an equal node in all its members |
| LegacyJunctionTrees.JunctionTreeEdge.GetOther | src/JunctionTree.java:318-320 | the result is one of the two endpoints, and a node that is neither endpoint gets the first |
| LegacyJunctionTrees.JunctionTree.GetNodeSet | src/JunctionTree.java:57-59 | in a valid tree no two of the returned nodes are equal |
| LegacyGraphExamples.CreateSimpleGraph | test/HEXGraphTest.java:58-68 | the fixture builds a valid graph on the person, the dog, the actor and the politician, with the person-dog exclusion and the actor and politician below the person |
| LegacyGraphExamples.SimpleSteps | test/HEXGraphTest.java:64-66 | the node map after each edge the fixture adds |
| LegacyGraphExamples.ShallowDescendants | test/HEXGraphTest.java:58-68 | when a label's children have no children, its descendants are exactly its children |
| LegacyGraphExamples.SimpleReach | test/HEXGraphTest.java:58-68 | the fixture's only hierarchy paths are the two edges below the person |
| LegacyGraphExamples.SimpleReachAll | test/HEXGraphTest.java:58-68 | the same for all pairs of labels at once |
| LegacyGraphExamples.SimpleAbove | test/HEXGraphTest.java:58-68 | a label is at or above another exactly when they are equal or it is the person over the actor or the politician |
| LegacyGraphExamples.SimpleExcluded | test/HEXGraphTest.java:64 | the only exclusion edges are the pair between the person and the dog |
| LegacyGraphExamples.SimpleSymmetric | test/HEXGraphTest.java:64 | the fixture's exclusions are paired |
| LegacyGraphExamples.SimpleInherited | test/HEXGraphTest.java:58-68 | the fixture implies an exclusion between two labels exactly when one of them is the dog |
| LegacyGraphExamples.SimpleGraphRelationships | test/HEXGraphTest.java:71-82 | the fixture has four labels and the eight relationships the creation test expects |
| LegacyGraphExamples.DensifiedReach | test/HEXGraphTest.java:86-88 | any densified fixture keeps exactly the hierarchy paths below the person |
| LegacyGraphExamples.DensifiedExcluded | test/HEXGraphTest.java:86-88 | any densified fixture has the same labels and the dog excludes, and is excluded by, every other label and nothing else is excluded |
| LegacyGraphExamples.DensifiedPair | test/HEXGraphTest.java:86-88 | the same for one pair of labels |
| LegacyGraphExamples.DenseRelationships | test/HEXGraphTest.java:89-100 | any graph with those labels, paths and exclusions passes the invariant check and has the twelve relationships the densify test expects |
| LegacyGraphExamples.DensifiedSimpleGraph | test/HEXGraphTest.java:86-101 | the twelve relationships of the densify test hold after `densify`, whose invariant check passes |
| LegacyGraphExamples.SparsifySimpleGraph | test/HEXGraphTest.java:104-116 | `sparsify` leaves the fixture exactly as it was built |
| LegacyGraphExamples.SparsifyAfterDensify | test/HEXGraphTest.java:119-132 | the eight relationships of the fixture hold after `densify` then `sparsify` |
| LegacyGraphExamples.DensifySimpleGraph | test/HEXGraphTest.java:86-88 | `densify` on the fixture passes its invariant check |

## Left out

- The numeric score extraction of `JunctionTree.exactInference` and `exactMarginalInference` (src/hexgraph/JunctionTree.java:152-269) is left out: it is `Math.pow`, `Math.exp` and floating-point ratios.
- The best and runner-up selection of `HEXGraphMethods.exactInference` and `exactPairInference` (src/hexgraph/HEXGraphMethods.java:113-166) is left out: it rests on floating-point comparisons and a near-1.0 heuristic.
- The body of `Factor.logSumOfExponentials` (src/hexgraph/Factor.java:143-149) is left out: it is `exp` and `log`, so the model takes the function as a parameter `lse`.
- Doubles are modelled as `real`: no rounding, overflow or NaN.
- The score fields of `GraphNode` and `setScores`/`getScores`/`getScore` (src/hexgraph/HEXGraph.java:552-596) are left out: they only move doubles around.
- `SparseVector.norm` (src/util/SparseVector.java:93-96) is left out: it is a square root. The `toString` methods of every class only format text and are not modelled.
- Randomness is modelled as a nondeterministic choice, with no model of the generator: the pivot of `listStateSpace`, the swaps of `shuffleRows`, and the random branch of `getEliminationOrdering`.
- The random branch of `getEliminationOrdering` (src/hexgraph/HEXGraph.java:470-471) is not modelled. Its guard `i == this.size()` is never true, because `i` starts at `size() - 1`.
- The default `Configuration()` constructor (src/hexgraph/Configuration.java:26-30) is not modelled: nothing in the kernel calls it.
- Null labels and null graphs are not modelled. Every label is a value, and an absent label gives the `NullPointer` error value wherever the Java code would unbox or dereference null.
- Java `int` counters (overlap weights, marked-neighbour counts, state counts) are unbounded integers: no graph in the kernel's range comes near 2^31.
- The `collectMessages`, `propagateMessages` and `exactInference` methods of the earlier junction tree (src/JunctionTree.java:141-153, 227-253, 296-312) are not modelled beyond the caller guard. Their recursion returns `null` or has an empty body, and it goes through `src/Factor.java`, which is not part of this model.
- The classifiers, training tasks, runners, the thread pool and `src/HEXGraphFactory.java` are not part of this model: they are SGD over doubles, file I/O, command-line drivers and concurrency.
- `src/Factor.java` is not part of this model. It trims configurations while they are hash-map keys and removes entries while iterating, so its result depends on `HashMap` internals.
- `src/HEXGraphMethods.java` is not part of this model: it calls graph methods that `src/HEXGraph.java` does not have.
- `util/Pair` is not modelled: it is a plain holder.
- GraphNodes.Link: its own contract states only that the label set is kept. The edge it adds is stated by `GraphNode.With` and by the lemmas `GraphNodes.LinkClosed` and `GraphNodes.TriLinkedFacts`.
- GraphNodes.TriLinked: its own contract states only that the label set is kept. What it adds is stated by `GraphNodes.TriLinkedFacts` and `GraphNodes.TriLinkedSymmetric`.
- GraphNodes.ExclusionLinked: its own contract states only that the label set is kept. What it adds is stated by `GraphNodes.ExclusionLinkedFacts` and `GraphNodes.ExclusionLinkedSymmetric`.
- GraphNodes.HierarchyLinked: its own contract states only that the label set is kept. What it adds is stated by `GraphNodes.HierarchyLinkedFacts`.
- GraphNodes.Unlinked: its own contract states only that the label set is kept. What it removes is stated by `GraphNodes.UnlinkedFacts`.
- LegacyGraphs.ExclusionLinked: its own contract states only that the label set is kept. The rest is stated by `LegacyGraphs.ExclusionLinkedFacts` and `LegacyGraphs.ExclusionLinkedSymmetric`.
- LegacyGraphs.HierarchyLinked: its own contract states only that the label set is kept. The rest is stated by `LegacyGraphs.HierarchyLinkedFacts`.
- LegacyGraphs.Unlinked: its own contract states only that the label set is kept.
- LegacyGraphs.Minus: its own contract states only the new label set. The edges are stated by `LegacyGraphs.MinusFacts`.
- LegacyGraphs.DensifiedExclusions: it pins the exclusions down only between distinct labels, and it assumes that the starting exclusions come in pairs. Whether a label ends up excluding itself, the corner case of a self-excluding ancestor, is left open.
- LegacyGraphs.HEXGraph.Densify: its contract leaves open whether a label excludes itself, for the same reason.
- Hierarchy.Descendants: it is the set of labels reachable by hierarchy edges. `addHierarchy` accepts a cycle, `addHierarchy(a, a)` included. On a cycle the recursive `getDescendants` (src/hexgraph/HEXGraph.java:731-737) never returns and throws `StackOverflowError`, and the model does not capture that crash.
- Graphs.HEXGraph.IsDescendant: on a cyclic hierarchy the model answers from reachability, whereas the Java recursion overflows the stack.
- Graphs.HEXGraph.GetDescendants: on a cyclic hierarchy the model returns the reachable labels, whereas the Java recursion (src/hexgraph/HEXGraph.java:731-737) throws `StackOverflowError`.
- Graphs.HEXGraph.GetAncestors: it calls `getDescendants` on every label (src/hexgraph/HEXGraph.java:287-299). So a cycle anywhere makes the Java code throw `StackOverflowError`, while the model returns the ancestor set.
- Graphs.HEXGraph.GetOverlapping: for a label on or below a hierarchy cycle the model returns a set, whereas the Java code overflows the stack in `getDescendants` or `getAncestors`.
- Graphs.HEXGraph.Sparsify: on a cyclic hierarchy the Java code overflows the stack in `getAncestors` (src/hexgraph/HEXGraph.java:395-397) before its invariant check. The model returns its outcome instead.
- Graphs.HEXGraph.Densify: on a cyclic hierarchy the Java code overflows the stack in `getAncestors` and `getDescendants` (src/hexgraph/HEXGraph.java:424-432). The model returns its outcome instead.
- LegacyGraphs.HEXGraph.HasHierarchyEdge: on a cyclic hierarchy the model answers from reachability, whereas the recursive `getHierarchySubset` (src/HEXGraph.java:391-397) throws `StackOverflowError`.
- LegacyGraphs.HEXGraph.SupersetOf: it calls `getHierarchySubset` on every label (src/HEXGraph.java:375-388). So a cycle anywhere makes the Java code overflow the stack, while the model returns the ancestor set.
- LegacyGraphs.HEXGraph.GetHierarchySuperset: on a cyclic hierarchy the model returns a set, whereas the Java code overflows the stack.
- LegacyGraphs.HEXGraph.GetHierarchySubset: on a cyclic hierarchy the model returns the reachable labels, whereas the recursion (src/HEXGraph.java:391-397) throws `StackOverflowError`.
- LegacyGraphs.HEXGraph.GetRelationship: it first tests `getHierarchySuperset` (src/HEXGraph.java:362-364), which overflows the stack on any cycle. The model returns a relationship instead.
- LegacyGraphs.HEXGraph.Densify: on a cyclic hierarchy the Java code overflows the stack in the subset and superset recursions (src/HEXGraph.java:209-222). The model returns its outcome instead.
- StateSpace.HEXGraphMethods.constructor: it requires the dense graph to have the densified shape `Enumeration.Dense`, as the javadoc of `getOverlapping` demands (src/hexgraph/HEXGraph.java:362). Dense means a closed, transitive and loop-free hierarchy, exclusions that come in pairs and are inherited by the descendants, no label excluding itself and no label excluding one of its children. The model says nothing about a `HEXGraphMethods` built over any other graph.
- StateSpace.HEXGraphMethods.ListStates: the enumerator is modelled only on a graph with the densified shape. Several graphs fall outside it. One is a graph with a one-sided exclusion, which `deleteExclusion` can leave behind. Another is a graph with a self-exclusion, where `getOverlapping` may return no label, so neither branch need remove the pivot and the Java recursion need not shrink. A hierarchy cycle is outside it too, and so is a hierarchy that is not transitively closed, such as the sparse graph. On those graphs the Java code may list illegal states, recurse forever or overflow the stack, and the model does not capture it.
- StateSpace.HEXGraphMethods.ListStateSpaceOf: it requires a graph with the densified shape, for the same reason as `ListStates`.
- StateSpace.HEXGraphMethods.ListStateSpace: it requires `Valid()`, which includes the densified shape of the dense graph, for the same reason as `ListStates`.
- LegacyConfigurations.Configuration.ContainsMapping: it compares the values as integers. The Java test `mapping.get(variable) != config.get(variable)` (src/Configuration.java:38) compares boxed `Integer` objects by reference, which agrees with comparing values only for values the `Integer` cache shares, -128 to 127. The values the configuration itself writes, `CONFIG_FALSE`, `CONFIG_TRUE` and the unset -1 (src/Configuration.java:8-10, 24), are all inside that range. For a value outside it the Java result depends on which boxes happen to be shared, and the model does not capture that.
- Sparse.SparseMatrix.GetSubMatrix: it requires `e <= rows.Length`. For a larger `e` the Java copies past the end of the row array with `Arrays.copyOfRange`, which pads the new matrix with null rows. The model has no null rows and does not capture that case.
- JunctionTrees.JunctionTreeNode.CollectMessages: it requires a rooting of the tree (`Rooted`). `PrunedRooted` derives one from what `buildEdges` leaves on success, except after its early return (see Findings). In that case every node keeps all its candidate edges and the tree cannot be rooted (`CandidatesUnrooted`). The Java collect then gathers the message of each neighbour twice, and the model does not capture that run.
- JunctionTrees.JunctionTreeNode.PropagateMessages: it requires `Rooted` for the same reason. On the unpruned early-return tree the Java propagation bounces between two parallel edges (src/hexgraph/JunctionTreeNode.java:111-115) until `StackOverflowError`, and the model does not capture that crash.
- JunctionTrees.JunctionTreeEdge.CollectMessages: it requires `Rooted`, and it leaves out the unpruned early-return tree for the same reason.
- JunctionTrees.JunctionTreeEdge.PropagateMessages: it requires `Rooted`, and it leaves out the unpruned early-return tree, where the Java recursion overflows the stack.

## Findings

| source | as written | input that shows it | evidently intended | confidence | as-written member | corrected member |
|---|---|---|---|---|---|---|
| src/hexgraph/HEXGraph.java:469-482 | `maxMarked` stays -1, so every unmarked label with 0 or more marked neighbours replaces `current`, and the last label iterated is chosen | unmarked labels 1 and 2 visited in that order, where 1 has one marked neighbour and 2 has none: 2 is chosen | `maxMarked = markedNeighbors` alongside `current = node`, a maximum-cardinality search that takes a label with the most marked neighbours | not executed | Graphs.ChooseAsWrittenMissesMaximum | Graphs.HEXGraph.GetMaximumCardinalityOrdering |
| src/hexgraph/HEXGraphMethods.java:36-47 | the copy is made by the private constructor, which never creates `mStateSpaceMapping`; `listStateSpace` on the copy dereferences the null memo | `getDeepCopy()` followed by `listStateSpace()` on a non-empty dense graph: the copy throws `NullPointerException` | the copy gets an empty memo, as the public constructor gives, and lists the same states as the original | not executed | StateSpace.HEXGraphMethods.CopyThenListAsWritten | StateSpace.HEXGraphMethods.CopyThenList |
| src/hexgraph/JunctionTree.java:104-107 | when the start node has no candidate edge, `return` leaves `buildEdges` before the pruning loop, so every node keeps all its candidate edges: one in each direction for every overlapping pair | cliques {a, b}, {b, c} and {d} with {d} the start node: {a, b} and {b, c} stay joined by two parallel edges, and the later message passes cannot treat the edges as a tree | leave the search loop with `break`, so that pruning keeps no edge at all, as `exactInference` already expects for a root without neighbours (src/hexgraph/JunctionTree.java:156-161) | medium, not executed | JunctionTrees.CandidatesUnrooted | JunctionTrees.JunctionTree.BuildPrunedEdges |
