# Similar-image matching, connectivity walk and group colouring

This project models the core of a small image-collage generator, written in
Dafny. The generator crops faces and objects out of photographs. It finds pairs
of crops that look alike and are taken from different, non-near-duplicate
photographs. Then it orders and colours the matched entities. The modelled
core is:

- **Pair filtering** (`generate.py`, `filter_pairs`). Index pairs are put in
  sorted form and deduplicated. Self-pairs are dropped, and so are pairs of crops
  from the same photograph. A pair also has to pass a coarse whole-image distance
  above 0.5. The cheap checks run first, so the coarse comparator is consulted
  only for pairs that pass them.
- **Similarity matching** (`generate.py`, `get_similar`). A distance matrix is
  thresholded into pairs, the pairs are filtered, and the crops that no
  surviving pair mentions are dropped. With a prefix, every index `k` is
  renamed to `prefix + str(k)` so that the face results and the object results
  can be merged into one namespace. The model proves that this renaming is
  injective, and that two distinct prefixes without digits can never collide.
- **Walk sort** (`util.py`, `walk_sort` and `max_degree_node`). The walk pops
  nodes from a degree dictionary. Each pop takes the first node of highest
  degree, either overall (first step) or among the nodes next to one already
  popped. The walk ends when no such node remains. The model proves that the
  result lists distinct nodes and starts at a highest-degree node. Every later
  node is adjacent to an earlier one. The visited set is exactly the connected
  component of the first node: the smallest set that contains it and is closed
  under taking neighbours.
- **Entity colouring** (`util.py`, `assign_entity_colors`). Pairs are merged
  into groups. Each group draws a colour and writes it to its ids, and later
  groups overwrite earlier ones.

The modules are `Generate` (generate.dfy), `Walk` (walk.dfy),
`EntityColors` (colors.dfy) and `Wrappers` (wrappers.dfy, the `Option` type
that stands for Python's `None` result).

`filter_pairs` and `get_similar` are expression code and are modelled as
functions over sets and maps. `max_degree_node` mutates a dictionary and a set
that it shares with `walk_sort`. It is modelled as the class `Walk.Walker`: its
fields are the key order of the dictionary, the dictionary itself and the
`connected` set, and its method `MaxDegreeNode` pops and updates them.
`walk_sort` becomes a method with a loop, proved against the ghost predicate
`IsWalk`. `assign_entity_colors` becomes methods with nested loops, proved
against the functions `Grouped` and `Paint`.

The coarse comparator `compare.compute_dist` and the distance-matrix
comparators are parameters: a function `coarse` and a matrix `dists`.
`random.choice(config.COLORS)` is a sequence `picks` of palette positions, one
per group.

## Model

| member | source | states |
|---|---|---|
| Generate.Sorted | generate.py:38 | the sorted form of a pair is ordered and is the pair or its reversal |
| Generate.Canonical | generate.py:37-38 | every input pair's sorted form is present; every element is ordered and comes from an input pair in one orientation; indices stay in range |
| Generate.CheapOk | generate.py:44-45 | definition: the pair is not a self-pair and its two crops come from different photographs |
| Generate.Survives | generate.py:44-46 | definition: the cheap checks hold and the coarse distance of the two photographs is above 0.5 |
| Generate.FilterPairs | generate.py:35-47 | every kept pair is ordered, in range, is not a self-pair, joins crops of different photographs, and passes the coarse distance above 0.5; it comes from an input pair in one orientation; every input pair whose sorted form passes all checks is kept |
| Generate.CoarseQueries | generate.py:43-46 | the pairs for which the short-circuiting `and` reaches the coarse comparator: every element comes from an input pair in one orientation and is sorted, distinct and joins different photographs, and every input pair whose sorted form passes those cheap checks is present |
| Generate.FilterConsultsOnlyQueries | generate.py:43-46 | two coarse comparators that agree on the pairs passing the cheap checks give the same result, so the comparator's value on any other pair is irrelevant |
| Generate.PermutationsCollapse | generate.py:37-38 | when (i, j) and (j, i) are both given, at most one orientation survives, and the sorted one survives exactly when it passes the checks |
| Generate.FilterIdempotent | generate.py:35-47 | filtering an already filtered set changes nothing |
| Generate.Candidates | generate.py:54 | `np.argwhere(dists <= thresh)`: a position is a candidate exactly when its distance is at most the threshold, and all indices are in range |
| Generate.Endpoints | generate.py:58 | `set(chain(*pairs))`: an index is present exactly when some pair mentions it |
| Generate.Similar | generate.py:50-59 | every returned pair is ordered, passes the filter, and has one orientation within the threshold; every position within the threshold whose sorted form passes the filter is returned; the kept crops are exactly the endpoints of the returned pairs, each mapped to its own crop |
| Generate.SimilarOfNothing | generate.py:50-59 | an empty list of crops yields no pairs and no crops |
| Generate.DigitChar | generate.py:64 | a digit value below 10 becomes a digit character |
| Generate.Decimal | generate.py:64 | `str(k)` is a non-empty digit string with no leading zero, one character long exactly for k < 10 |
| Generate.DecimalRoundTrip | generate.py:64 | parsing `str(k)` gives back k |
| Generate.PrefixedInjective | generate.py:61-66 | `prefix + str(a) == prefix + str(b)` only when a == b |
| Generate.Name | generate.py:64-66 | definition: `'{}{}'.format(prefix, k)`, the prefix followed by the decimal index |
| Generate.NamePair | generate.py:63-65 | definition: both indices of a pair renamed, orientation kept |
| Generate.PrefixesDisjoint | generate.py:61-66 | two different prefixes without digits never give the same name |
| Generate.NameInjective | generate.py:62-66 | renaming with one prefix is injective on indices |
| Generate.InjectiveImageSize | generate.py:63-66 | an injective renaming keeps the number of elements |
| Generate.NamePairs | generate.py:63-65 | a pair is present exactly when its renamed form is present; nothing else is present, and the number of pairs is unchanged |
| Generate.NameItems | generate.py:66 | every key is renamed, and only renamed keys are present; each maps to its original crop, and the number of entries is unchanged |
| Generate.Namespace | generate.py:61-67 | `get_similar` with a prefix: the pairs and crops correspond one to one with the unprefixed result, with the same crops |
| Generate.NamesDisjoint | generate.py:123-125 | the face prefix and the object prefix can never yield the same name |
| Generate.MergeKeepsItems | generate.py:123-129 | `{**faces, **objects}` loses no crop: the key sets are disjoint, the sizes add up, and each side's crops survive the merge |
| Generate.MergeKeepsPairs | generate.py:123-128 | `fpairs + opairs` joins disjoint pair sets whose sizes add up |
| Walk.Within | util.py:43 | the dictionary restricted to `connected`: exactly the keys that are in `connected`, as a subsequence of the key order (dictionary order kept), without duplicates |
| Walk.Without | util.py:47 | `d.pop(n)` on the key order: the removed keys go, the other keys stay as a subsequence of the old order (their relative order kept), and the order stays duplicate-free |
| Walk.WithoutShrinks | util.py:47 | popping a present key strictly shortens the key order |
| Walk.WithoutNothing | util.py:26 | removing nothing leaves the key order unchanged |
| Walk.WithoutTwice | util.py:47 | two successive pops remove the union of the keys |
| Walk.NoDupSize | util.py:21-22 | a duplicate-free list has as many elements as its set |
| Walk.Nodes | util.py:24 | definition: the nodes `g.add_edges_from(edges)` creates, every end of every edge |
| Walk.Neighbours | util.py:48 | definition: `g.neighbors(n)`, the other ends of the edges at `n`, with parallel edges and both directions collapsed |
| Walk.Degree | util.py:26 | definition: `nx.degree(g)[n]` as networkx 1.x computes it, the number of distinct neighbours with a self-loop counted twice |
| Walk.SelfLoopCountsTwice | util.py:26 | in `[(3,4),(3,5),(1,1),(1,2)]` node 1, with a self-loop, has degree 3 while node 3 has degree 2, so the self-loop decides which node has the highest degree |
| Walk.Degrees | util.py:26 | definition: `nx.degree(g)`, every node mapped to its degree |
| Walk.NeighboursAreNodes | util.py:23-24 | every neighbour of a node is a node of the graph |
| Walk.NodeHasNeighbour | util.py:23-24 | every node built from an edge has at least one neighbour |
| Walk.AdjacentSymmetric | util.py:23-24 | the graph is undirected |
| Walk.NodeOrder | util.py:24-26 | the degree dictionary's key order lists every node exactly once and nothing else |
| Walk.FirstEdge | util.py:23-24 | the position of the first edge that has the node as an end, or the edge count when none has |
| Walk.FirstEdgeKept | util.py:23-24 | adding an edge does not move a node's first edge |
| Walk.FirstEdgeNew | util.py:23-24 | a node first mentioned by an added edge has that edge as its first edge |
| Walk.FirstEdgeOfNewNode | util.py:23-24 | a node outside the graph is mentioned by no edge |
| Walk.NodeOrderFirstAppearance | util.py:24-26 | the key order is the order of first appearance in the edge list: an earlier key first appears in an earlier edge, or in the same edge as its first end while the later key is its second end |
| Walk.Candidates | util.py:40-43 | with `connected` empty, the candidates are all keys in order; otherwise they are exactly the keys in `connected`, in dictionary order |
| Walk.IsFirstMax | util.py:46 | definition: what `max(deg.keys(), key=...)` returns, a candidate of maximum degree with no earlier candidate of that degree |
| Walk.Reached | util.py:48-49 | definition: `connected` after the given nodes were popped, the union of their neighbours |
| Walk.StepCandidates | util.py:40-43 | definition: the candidates of the next step once the given nodes were popped |
| Walk.IsWalk | util.py:17-34 | definition: the result of `walk_sort`, each node the first maximum-degree candidate of its step, with no candidate left at the end |
| Walk.IsFirstMaxRestricted | util.py:43-46 | a first-max choice among the candidates made with the trimmed dictionary is also the first-max choice with the full degree map |
| Walk.IsFirstMaxUnrestricted | util.py:43-46 | conversely, removing only non-candidates from the degree map keeps a first-max choice, so the choice does not depend on non-candidate entries |
| Walk.FirstMaxIndex | util.py:46 | `max(..., key=...)` returns a candidate of maximum degree, and no earlier candidate has that degree |
| Walk.PickNode | util.py:40-46 | returns `None` exactly when there are no candidates; otherwise it returns the first maximum-degree candidate |
| Walk.Walker.constructor | util.py:23-27 | the graph is built; the dictionary holds every node's degree in first-appearance order; `connected` is empty |
| Walk.Walker.AddNeighbours | util.py:48-49 | `connected` gains exactly the neighbours of the popped node; the dictionary is unchanged |
| Walk.Walker.MaxDegreeNode | util.py:37-50 | `None` exactly when no candidate remains, and then nothing changes; otherwise the first maximum-degree candidate is popped from the dictionary, and `connected` gains exactly its neighbours |
| Walk.StepState | util.py:28-33 | after one more pop, the key order, the dictionary and `connected` are those of the longer visited sequence |
| Walk.StepChoices | util.py:28-33 | appending a correctly chosen node keeps every step of the ordering correctly chosen |
| Walk.EarlierChoice | util.py:28-33 | appending a node leaves each earlier step's choice as it was |
| Walk.WalkSort | util.py:17-34 | every node of the result was the first maximum-degree candidate of its step, and no candidate remains when the walk stops |
| Walk.ReachedIff | util.py:48-49 | a node is in `connected` exactly when it is adjacent to a popped node |
| Walk.WalkVisitsDistinctNodes | util.py:17-34 | the ordering has no repeats, holds only nodes of the graph, and is no longer than the node count |
| Walk.SubsetSize | util.py:21-22 | a subset is no larger than its superset |
| Walk.EndpointsAreNodes | util.py:23-24 | both endpoints of every edge are nodes |
| Walk.WalkStartsAtHub | util.py:18-19 | for a non-empty edge list the walk is non-empty; it starts at the first node of maximum degree, whose degree bounds every node's degree |
| Walk.WalkFollowsEdges | util.py:19-20 | every node after the first is adjacent to an earlier one |
| Walk.StepFollowsEdge | util.py:40-49 | a node chosen after the first step lies in `connected`, so it is adjacent to a node popped before it |
| Walk.FirstMaxIsCandidate | util.py:46 | the node `max` returns is one of the candidates it was given |
| Walk.CandidateFollowsEdge | util.py:40-49 | every candidate after the first step lies in `connected`, so it is adjacent to a node popped before it |
| Walk.WalkIsClosed | util.py:21-22 | every neighbour of a visited node is visited |
| Walk.ClosedHoldsPrefix | util.py:19-22 | a neighbour-closed set that contains the first node contains every node of a walk that follows edges |
| Walk.WalkIsComponent | util.py:17-34 | the visited nodes are closed under neighbours and lie inside every closed set that contains the first node: they are the first node's connected component |
| EntityColors.Grouped | util.py:56-63 | the grouping as written produces one group per pair |
| EntityColors.Grow | util.py:58-61 | definition: the inner loop, in which every group holding `a` or `b` gains both |
| EntityColors.GroupHoldsItsPair | util.py:57-63 | group i holds both ids of pair i at the end |
| EntityColors.GroupsOnlyGrow | util.py:58-61 | a group never loses an id as later pairs are processed |
| EntityColors.GrowUnion | util.py:58-61 | the inner loop adds at most the pair's two ids to the ids held by the groups |
| EntityColors.GroupsCoverIds | util.py:56-63 | the groups hold exactly the ids that occur in the pairs |
| EntityColors.Paint | util.py:65-69 | definition: the painting loop, in which group g writes `palette[picks[g]]` to its ids, in list order, so later groups overwrite earlier ones |
| EntityColors.PaintIsLastGroup | util.py:65-69 | exactly the grouped ids are coloured, each with a palette colour: the one drawn for the last group that holds it |
| EntityColors.EarlierGroupStaysLast | util.py:65-69 | an id the last group does not hold keeps the colour of its last group among the earlier groups |
| EntityColors.GroupPairs | util.py:56-63 | the grouping loop as written computes `Grouped` |
| EntityColors.PaintGroups | util.py:65-70 | the painting loop computes `Paint`: exactly the grouped ids are coloured, with palette colours |
| EntityColors.AssignEntityColors | util.py:53-70 | colours exactly the ids of the pairs, with palette colours, as `Paint(Grouped(pairs))` assigns them |
| EntityColors.PairSplitAsWritten | util.py:57-69 | as written, the chain (1, 2), (2, 3) yields groups {1, 2, 3} and {2, 3}; with two different draws, ids 1 and 2 of one pair end with different colours |
| EntityColors.FirstTouching | util.py:58-59 | the position of the first group holding an id of the pair, or the group count when no group does |
| EntityColors.Place | util.py:58-63 | definition: one step of the loop with `break`, in which the first group that touches the pair gains both ids, or else a new group {a, b} is appended |
| EntityColors.GroupedFirst | util.py:56-63 | the grouping with the `break` produces at most one group per pair |
| EntityColors.PlaceGrows | util.py:58-63 | placing a pair only grows groups and leaves both of its ids in one group |
| EntityColors.PlaceKeepsDisjoint | util.py:58-63 | placing a pair that touches at most one group keeps the groups disjoint |
| EntityColors.FirstMatchGroups | util.py:56-63 | without a bridging pair, the corrected grouping yields disjoint groups, and both ids of every pair share one of them |
| EntityColors.UnionHolds | util.py:65-69 | every group's ids are among the grouped ids |
| EntityColors.PaintDisjoint | util.py:65-69 | with disjoint groups, every id gets the colour of its own group |
| EntityColors.FirstMatchColoursPairsAlike | util.py:53-70 | corrected: without a bridging pair, both ids of every pair get the same colour |
| EntityColors.ChainOneGroup | util.py:56-63 | corrected: the chain (1, 2), (2, 3) has no bridging pair and forms the single group {1, 2, 3} |
| EntityColors.GroupPairsFirstMatch | util.py:56-63 | the grouping loop with the `break` computes `GroupedFirst` |
| EntityColors.AssignEntityColorsFirstMatch | util.py:53-70 | corrected: computes `Paint(GroupedFirst(pairs))`, and without a bridging pair it gives both ids of every pair one colour |

## Left out

- `load_images`, `prepare_images`, `render`, the `__main__` driver and the
  module-level `random.sample` of photographs do file I/O, image scaling and
  drawing. Only the merge of the two prefixed results (generate.py:123-129) is
  modelled, through the `Merge…` lemmas.
- `hash`, `noise` and `upload` in util.py are hashing, randomness and SSH
  transfer. They are not part of this model.
- The comparators (`compare.compute_dist`, `compare_faces`,
  `compare.compute_dists`) run image code and are not part of this model. The
  coarse one is the parameter `coarse`, and the matrix ones are the parameter
  `dists`.
- `random.choice(config.COLORS)` is the sequence `picks` of palette positions,
  and `config.COLORS` is the parameter `palette`.
- Generate.FilterPairs: returns a set. Python builds its list by iterating a
  set, so the list has no duplicates but no defined order either. The order is
  not modelled.
- Generate.FilterPairs: the coarse threshold is the constant 0.5 that the code
  hard-codes. It is not a configurable parameter.
- Generate.Similar: the input matrix is assumed square with one row per crop,
  as the comparators produce it. numpy's argwhere order is not modelled,
  because the result is consumed as a set.
- Generate.Namespace: `get_similar` with and without a prefix are two members,
  `Similar` and `Namespace(prefix, Similar(…))`. Python returns integer keys in
  one case and string keys in the other, which one Dafny type cannot hold. Only
  string prefixes are modelled.
- Generate.Item: the bounding box is carried through but never inspected.
- Walk.Walker: the degree dictionary is modelled as a dictionary, which is what
  `nx.degree` returns in networkx 1.x. In later networkx versions it returns a
  view without `pop`, and that case is not modelled.
- Walk.WalkSort: the loop runs while the dictionary has keys, which is
  Python's `while degree:`. The dictionary's key order is a field beside it,
  because a Dafny map has no order and `max` depends on the order.
- The walk's `connected` set and the dictionary are fields of one `Walker`
  object. In the source they are two objects shared between the two functions.
  No other code aliases them.

## Findings

| source | as written | input that shows it | evidently intended | confidence | as-written member | corrected member |
|---|---|---|---|---|---|---|
| util.py:57-63 | The inner `for grp in groups:` has an `else:` but no `break`. The `else` therefore runs for every pair: a pair appends a group of its own even after existing groups took it. | The pairs (1, 2), (2, 3) with two different colour draws. The groups become {1, 2, 3} and {2, 3}, and the second group repaints 2, so 1 and 2 end with different colours although they form a pair. | Stop at the first group that holds either id (`break`), and open a new group only when no group does. Then, unless a pair touches two existing groups, both ids of every pair share a colour. | high; not executed | EntityColors.PairSplitAsWritten | EntityColors.FirstMatchColoursPairsAlike |

The model of the code as written (`AssignEntityColors`) follows the loop
exactly. The corrected loop is `AssignEntityColorsFirstMatch`, whose contract
carries the pair-colouring guarantee.
