/**
  The greedy connectivity walk of util.py (walk_sort and max_degree_node).

  The edges give an undirected graph; a dictionary maps every node to its
  degree, in the order in which the nodes first appear in the edge list.
  The walk repeatedly pops, from the nodes still in that dictionary, the one
  of highest degree among those next to a node already popped (the first
  pick is unrestricted), and stops when there is no such node.  It therefore
  lists the connected component of the graph's first highest-degree node,
  hubs first.
 */
module Walk {
  import opened Wrappers

  // ---------------------------------------------------------------------------
  // Sequences used as ordered key lists
  // ---------------------------------------------------------------------------

  predicate NoDup<N(==)>(s: seq<N>)
  {
    forall i, j :: 0 <= i < j < |s| ==> s[i] != s[j]
  }

  function Elems<N(==)>(s: seq<N>): set<N>
  {
    set x | x in s
  }

  /** The elements of `r` occur in `s` in the same relative order. */
  predicate SubSeq<N(==)>(r: seq<N>, s: seq<N>)
    decreases |s|
  {
    if r == [] then true
    else if s == [] then false
    else if r[0] == s[0] then SubSeq(r[1..], s[1..])
    else SubSeq(r, s[1..])
  }

  /** The elements of `s` that lie in `c`, in their order in `s`. */
  function Within<N(==)>(s: seq<N>, c: set<N>): (r: seq<N>)
    ensures forall x :: x in r ==> x in s && x in c
    ensures forall x :: x in s && x in c ==> x in r
    ensures NoDup(s) ==> NoDup(r)
    ensures SubSeq(r, s)
  {
    if s == [] then []
    else if s[0] in c then
      var w := Within(s[1..], c);
      assert ([s[0]] + w)[1..] == w;
      [s[0]] + w
    else Within(s[1..], c)
  }

  /** The elements of `s` that lie outside `c`, in their order in `s`. */
  function Without<N(==)>(s: seq<N>, c: set<N>): (r: seq<N>)
    ensures forall x :: x in r ==> x in s && x !in c
    ensures forall x :: x in s && x !in c ==> x in r
    ensures NoDup(s) ==> NoDup(r)
    ensures |r| <= |s|
    ensures SubSeq(r, s)
  {
    if s == [] then []
    else if s[0] in c then Without(s[1..], c)
    else
      var w := Without(s[1..], c);
      assert ([s[0]] + w)[1..] == w;
      [s[0]] + w
  }

  /** Removing a present element shortens the sequence. */
  lemma {:induction false} WithoutShrinks<N>(s: seq<N>, c: set<N>, x: N)
    requires x in s && x in c
    ensures |Without(s, c)| < |s|
  {
    if s[0] != x {
      WithoutShrinks(s[1..], c, x);
    }
  }

  lemma {:induction false} WithoutNothing<N>(s: seq<N>)
    ensures Without(s, {}) == s
  {
    if s != [] {
      WithoutNothing(s[1..]);
    }
  }

  lemma {:induction false} WithoutTwice<N>(s: seq<N>, a: set<N>, b: set<N>)
    ensures Without(Without(s, a), b) == Without(s, a + b)
  {
    if s != [] {
      var t := s[1..];
      WithoutTwice(t, a, b);
      if s[0] in a {
        assert Without(s, a) == Without(t, a);
      } else {
        var w := Without(t, a);
        assert Without(s, a) == [s[0]] + w;
        assert ([s[0]] + w)[0] == s[0] && ([s[0]] + w)[1..] == w;
      }
    }
  }

  lemma {:induction false} NoDupSize<N>(s: seq<N>)
    requires NoDup(s)
    ensures |Elems(s)| == |s|
  {
    if s != [] {
      var t := s[..|s| - 1];
      assert NoDup(t);
      NoDupSize(t);
      assert Elems(s) == Elems(t) + {s[|s| - 1]};
      assert s[|s| - 1] !in Elems(t);
    }
  }

  // ---------------------------------------------------------------------------
  // The graph `nx.Graph(); g.add_edges_from(edges)`
  // ---------------------------------------------------------------------------

  /** The nodes of the graph: every endpoint of an edge. */
  function Nodes<N(==)>(edges: seq<(N, N)>): set<N>
  {
    if edges == [] then {} else Nodes(edges[..|edges| - 1]) + {edges[|edges| - 1].0, edges[|edges| - 1].1}
  }

  /** What one edge contributes to the neighbours of `n`. */
  function EdgeNeighbours<N(==)>(e: (N, N), n: N): set<N>
  {
    (if e.0 == n then {e.1} else {}) + (if e.1 == n then {e.0} else {})
  }

  /** `g.neighbors(n)`: parallel edges and both directions collapse. */
  function Neighbours<N(==)>(edges: seq<(N, N)>, n: N): set<N>
  {
    if edges == [] then {}
    else Neighbours(edges[..|edges| - 1], n) + EdgeNeighbours(edges[|edges| - 1], n)
  }

  /** A neighbour is a node of the graph. */
  lemma {:induction false} NeighboursAreNodes<N>(edges: seq<(N, N)>, n: N)
    ensures Neighbours(edges, n) <= Nodes(edges)
  {
    if edges != [] {
      NeighboursAreNodes(edges[..|edges| - 1], n);
    }
  }

  /** Every endpoint of an edge has a neighbour. */
  lemma {:induction false} NodeHasNeighbour<N>(edges: seq<(N, N)>, n: N)
    requires n in Nodes(edges)
    ensures Neighbours(edges, n) != {}
  {
    var e := edges[|edges| - 1];
    if n != e.0 && n != e.1 {
      NodeHasNeighbour(edges[..|edges| - 1], n);
    } else if n == e.0 {
      assert e.1 in EdgeNeighbours(e, n);
    } else {
      assert e.0 in EdgeNeighbours(e, n);
    }
  }

  predicate Adjacent<N(==)>(edges: seq<(N, N)>, a: N, b: N)
  {
    b in Neighbours(edges, a)
  }

  lemma {:induction false} AdjacentSymmetric<N>(edges: seq<(N, N)>, a: N, b: N)
    ensures Adjacent(edges, a, b) <==> Adjacent(edges, b, a)
  {
    if edges != [] {
      AdjacentSymmetric(edges[..|edges| - 1], a, b);
    }
  }

  /** `nx.degree(g)[n]` in networkx 1.x: the number of distinct neighbours,
      with a self-loop counted twice (once as a neighbour, once more here). */
  function Degree<N(==)>(edges: seq<(N, N)>, n: N): nat
  {
    |Neighbours(edges, n)| + (if n in Neighbours(edges, n) then 1 else 0)
  }

  /** Adding an edge adds its ends' neighbours. */
  lemma NeighboursAppend<N>(edges: seq<(N, N)>, e: (N, N), n: N)
    ensures Neighbours(edges + [e], n) == Neighbours(edges, n) + EdgeNeighbours(e, n)
  {
    assert (edges + [e])[..|edges|] == edges;
  }

  /** In `[(3,4),(3,5),(1,1),(1,2)]` node 1 is its own neighbour. */
  lemma SelfLoopNeighbours(n: int)
    requires n == 1 || n == 3
    ensures Neighbours([(3, 4), (3, 5), (1, 1), (1, 2)], n) == if n == 1 then {1, 2} else {4, 5}
  {
    var e1, e2, e3, e4 := (3, 4), (3, 5), (1, 1), (1, 2);
    NeighboursAppend([], e1, n);
    NeighboursAppend([e1], e2, n);
    NeighboursAppend([e1, e2], e3, n);
    NeighboursAppend([e1, e2, e3], e4, n);
    assert [] + [e1] == [e1];
    assert [e1] + [e2] == [e1, e2];
    assert [e1, e2] + [e3] == [e1, e2, e3];
    assert [e1, e2, e3] + [e4] == [e1, e2, e3, e4];
  }

  /** A self-loop counts twice: node 1, with the self-loop, outranks node 3,
      although both have two distinct neighbours. */
  lemma SelfLoopCountsTwice()
    ensures Degree([(3, 4), (3, 5), (1, 1), (1, 2)], 1) == 3
    ensures Degree([(3, 4), (3, 5), (1, 1), (1, 2)], 3) == 2
  {
    SelfLoopNeighbours(1);
    SelfLoopNeighbours(3);
    assert |{1, 2}| == 2 && |{4, 5}| == 2;
  }

  /** `nx.degree(g)`: the degree of every node. */
  function Degrees<N(==)>(edges: seq<(N, N)>): map<N, nat>
  {
    map n | n in Nodes(edges) :: Degree(edges, n)
  }

  /** The order of the degree dictionary: nodes in order of first appearance,
      the first end of an edge before the second. */
  function NodeOrder<N(==)>(edges: seq<(N, N)>): (r: seq<N>)
    ensures NoDup(r)
    ensures forall n :: n in r ==> n in Nodes(edges)
    ensures forall n :: n in Nodes(edges) ==> n in r
  {
    if edges == [] then []
    else
      var e := edges[|edges| - 1];
      var r0 := NodeOrder(edges[..|edges| - 1]);
      assert edges == edges[..|edges| - 1] + [e];
      var r1 := if e.0 in r0 then r0 else r0 + [e.0];
      if e.1 in r1 then r1 else r1 + [e.1]
  }

  /** `n` is an end of the edge `e`. */
  predicate Mentions<N(==)>(e: (N, N), n: N)
  {
    n == e.0 || n == e.1
  }

  /** The position of the first edge that has `n` as an end, or `|edges|` if none does. */
  function FirstEdge<N(==)>(edges: seq<(N, N)>, n: N): (k: nat)
    ensures k <= |edges|
    ensures k < |edges| ==> Mentions(edges[k], n)
    ensures forall j :: 0 <= j < k ==> !Mentions(edges[j], n)
  {
    if edges == [] then 0
    else if Mentions(edges[0], n) then 0
    else 1 + FirstEdge(edges[1..], n)
  }

  /** Appending an edge does not move the first edge of a node already present. */
  lemma FirstEdgeKept<N>(init: seq<(N, N)>, e: (N, N), n: N)
    requires FirstEdge(init, n) < |init|
    ensures FirstEdge(init + [e], n) == FirstEdge(init, n)
  {
    var k := FirstEdge(init, n);
    assert (init + [e])[k] == init[k];
  }

  /** The first edge of a node that only the appended edge mentions is that edge. */
  lemma FirstEdgeNew<N>(init: seq<(N, N)>, e: (N, N), n: N)
    requires FirstEdge(init, n) == |init| && Mentions(e, n)
    ensures FirstEdge(init + [e], n) == |init|
  {
    var all := init + [e];
    assert all[|init|] == e;
    forall j | 0 <= j < |init| ensures !Mentions(all[j], n) {
      assert all[j] == init[j];
    }
  }

  /** A node absent from the graph of a prefix is mentioned by none of its edges. */
  lemma FirstEdgeOfNewNode<N>(edges: seq<(N, N)>, n: N)
    requires n !in Nodes(edges)
    ensures FirstEdge(edges, n) == |edges|
  {
    var k := FirstEdge(edges, n);
    if k < |edges| {
      EndpointsAreNodes(edges, k);
    }
  }

  /** The key order of `nx.degree(g)` is the order of first appearance in the
      edge list: a node listed earlier first appears in an earlier edge, or in
      the same edge as its first end while the later node is its second end. */
  lemma {:induction false} NodeOrderFirstAppearance<N>(edges: seq<(N, N)>)
    ensures forall n :: n in NodeOrder(edges) ==> FirstEdge(edges, n) < |edges|
    ensures forall i, j :: 0 <= i < j < |NodeOrder(edges)| ==>
              var r := NodeOrder(edges);
              FirstEdge(edges, r[i]) < FirstEdge(edges, r[j])
              || (FirstEdge(edges, r[i]) == FirstEdge(edges, r[j])
                  && r[i] == edges[FirstEdge(edges, r[i])].0 && r[j] == edges[FirstEdge(edges, r[j])].1)
  {
    if edges != [] {
      var n := |edges| - 1;
      var init := edges[..n];
      var e := edges[n];
      assert edges == init + [e];
      NodeOrderFirstAppearance(init);
      var r0 := NodeOrder(init);
      var r := NodeOrder(edges);
      forall x | x in r0 ensures FirstEdge(edges, x) == FirstEdge(init, x) < n {
        FirstEdgeKept(init, e, x);
      }
      forall x | x in r && x !in r0 ensures FirstEdge(edges, x) == n && Mentions(e, x) {
        FirstEdgeOfNewNode(init, x);
        FirstEdgeNew(init, e, x);
      }
      assert r[..|r0|] == r0;
      forall i, j | 0 <= i < j < |r|
        ensures FirstEdge(edges, r[i]) < FirstEdge(edges, r[j])
                || (FirstEdge(edges, r[i]) == FirstEdge(edges, r[j])
                    && r[i] == edges[FirstEdge(edges, r[i])].0 && r[j] == edges[FirstEdge(edges, r[j])].1)
      {
        if j < |r0| {
          assert r[i] == r0[i] && r[j] == r0[j];
        } else if i < |r0| {
          assert r[i] in r0 && r[j] !in r0;
        } else {
          assert r[i] !in r0 && r[j] !in r0;
        }
      }
    }
  }

  // ---------------------------------------------------------------------------
  // Specification of one step and of the whole walk
  // ---------------------------------------------------------------------------

  /** The keys max_degree_node chooses among: all of them while `connected` is
      empty, otherwise those in `connected`, in dictionary order. */
  function Candidates<N(==)>(keys: seq<N>, connected: set<N>): (r: seq<N>)
    ensures forall x :: x in r ==> x in keys && (connected != {} ==> x in connected)
    ensures connected == {} ==> r == keys
    ensures connected != {} ==> forall x :: x in keys && x in connected ==> x in r
    ensures connected != {} ==> SubSeq(r, keys)
  {
    if connected == {} then keys else Within(keys, connected)
  }

  /** `n` is what `max(cands, key=degree)` returns: a candidate of maximum degree,
      and the first such in the order of `cands`. */
  ghost predicate IsFirstMax<N>(cands: seq<N>, degree: map<N, nat>, n: N)
  {
    && (forall j :: 0 <= j < |cands| ==> cands[j] in degree)
    && exists i :: 0 <= i < |cands| && cands[i] == n
         && (forall j :: 0 <= j < |cands| ==> degree[cands[j]] <= degree[n])
         && (forall j :: 0 <= j < i ==> degree[cands[j]] < degree[n])
  }

  /** Dropping keys outside the candidates does not change the choice. */
  lemma IsFirstMaxRestricted<N>(cands: seq<N>, degree: map<N, nat>, gone: set<N>, n: N)
    requires IsFirstMax(cands, degree - gone, n)
    ensures IsFirstMax(cands, degree, n)
  {
  }

  /** Conversely, dropping only non-candidates keeps a first-max choice. */
  lemma IsFirstMaxUnrestricted<N>(cands: seq<N>, degree: map<N, nat>, gone: set<N>, n: N)
    requires IsFirstMax(cands, degree, n)
    requires forall j :: 0 <= j < |cands| ==> cands[j] !in gone
    ensures IsFirstMax(cands, degree - gone, n)
  {
  }

  /** The `connected` set after visiting `visited`: all their neighbours. */
  function Reached<N(==)>(edges: seq<(N, N)>, visited: seq<N>): set<N>
  {
    if visited == [] then {}
    else Reached(edges, visited[..|visited| - 1]) + Neighbours(edges, visited[|visited| - 1])
  }

  /** The candidates of the next step once `visited` has been popped. */
  function StepCandidates<N(==)>(edges: seq<(N, N)>, visited: seq<N>): seq<N>
  {
    Candidates(Without(NodeOrder(edges), Elems(visited)), Reached(edges, visited))
  }

  /** `ordering` is what walk_sort returns for `edges`: each node is the step's
      first maximum-degree candidate, and no candidate is left at the end. */
  ghost predicate IsWalk<N>(edges: seq<(N, N)>, ordering: seq<N>)
  {
    && (forall k :: 0 <= k < |ordering| ==> IsFirstMax(StepCandidates(edges, ordering[..k]), Degrees(edges), ordering[k]))
    && StepCandidates(edges, ordering) == []
  }

  /** A set of nodes that contains every neighbour of each of its nodes. */
  ghost predicate Closed<N>(edges: seq<(N, N)>, s: set<N>)
  {
    forall a :: a in s ==> Neighbours(edges, a) <= s
  }

  /** `max(cands, key=lambda k: degree[k])`: Python's max keeps the first of
      several equal maxima. */
  method FirstMaxIndex<N>(cands: seq<N>, degree: map<N, nat>) returns (best: nat)
    requires cands != []
    requires forall j :: 0 <= j < |cands| ==> cands[j] in degree
    ensures best < |cands|
    ensures forall j :: 0 <= j < |cands| ==> degree[cands[j]] <= degree[cands[best]]
    ensures forall j :: 0 <= j < best ==> degree[cands[j]] < degree[cands[best]]
  {
    best := 0;
    for i := 1 to |cands|
      invariant best < i
      invariant forall j :: 0 <= j < i ==> degree[cands[j]] <= degree[cands[best]]
      invariant forall j :: 0 <= j < best ==> degree[cands[j]] < degree[cands[best]]
    {
      if degree[cands[i]] > degree[cands[best]] {
        best := i;
      }
    }
  }

  /** The choice max_degree_node makes: the first maximum-degree candidate, or
      None when there is no candidate.  `degree` holds the true degrees. */
  method PickNode<N(==)>(keys: seq<N>, connected: set<N>, degree: map<N, nat>) returns (next: Option<N>)
    requires forall n :: n in keys ==> n in degree
    ensures next.None? <==> Candidates(keys, connected) == []
    ensures next.Some? ==> IsFirstMax(Candidates(keys, connected), degree, next.value)
  {
    var deg := if connected == {} then keys else Within(keys, connected);
    if deg == [] {
      return None;
    }
    var best := FirstMaxIndex(deg, degree);
    next := Some(deg[best]);
  }

  // ---------------------------------------------------------------------------
  // The mutable state: the degree dictionary and the `connected` set
  // ---------------------------------------------------------------------------

  /** The state walk_sort shares with max_degree_node: the degree dictionary,
      held as its key order and its contents, and the `connected` set. */
  class Walker<N(==)> {
    const edges: seq<(N, N)>
    var keys: seq<N>
    var degree: map<N, nat>
    var connected: set<N>

    ghost predicate Valid()
      reads this
    {
      && NoDup(keys)
      && (forall n :: n in degree ==> n in keys)
      && (forall n :: n in keys ==> n in degree)
    }

    /** `g.add_edges_from(edges); connected = set(); degree = nx.degree(g)` */
    constructor (edges: seq<(N, N)>)
      ensures Valid() && this.edges == edges
      ensures keys == NodeOrder(edges) && degree == Degrees(edges) && connected == {}
    {
      this.edges := edges;
      keys := NodeOrder(edges);
      degree := Degrees(edges);
      connected := {};
    }

    /** max_degree_node(g, degree, connected) */
    method MaxDegreeNode() returns (next: Option<N>)
      requires Valid()
      modifies this
      ensures Valid()
      ensures next.None? <==> Candidates(old(keys), old(connected)) == []
      ensures next.None? ==> keys == old(keys) && degree == old(degree) && connected == old(connected)
      ensures next.Some? ==>
                && IsFirstMax(Candidates(old(keys), old(connected)), old(degree), next.value)
                && keys == Without(old(keys), {next.value})
                && degree == old(degree) - {next.value}
                && connected == old(connected) + Neighbours(edges, next.value)
    {
      next := PickNode(keys, connected, degree);
      if next.None? {
        return;
      }
      var n := next.value;
      keys := Without(keys, {n});
      degree := degree - {n};
      AddNeighbours(n);
    }

    /** `for n_ in g.neighbors(n): connected.add(n_)` */
    method AddNeighbours(n: N)
      modifies this
      ensures keys == old(keys) && degree == old(degree)
      ensures connected == old(connected) + Neighbours(edges, n)
    {
      var rest := Neighbours(edges, n);
      while rest != {}
        invariant keys == old(keys) && degree == old(degree)
        invariant rest <= Neighbours(edges, n)
        invariant connected == old(connected) + (Neighbours(edges, n) - rest)
        decreases rest
      {
        var m :| m in rest;
        connected := connected + {m};
        rest := rest - {m};
      }
    }
  }

  /** How the walk's state follows one more popped node. */
  lemma StepState<N>(edges: seq<(N, N)>, visited: seq<N>, n: N)
    ensures Without(Without(NodeOrder(edges), Elems(visited)), {n}) == Without(NodeOrder(edges), Elems(visited + [n]))
    ensures (Degrees(edges) - Elems(visited)) - {n} == Degrees(edges) - Elems(visited + [n])
    ensures Reached(edges, visited) + Neighbours(edges, n) == Reached(edges, visited + [n])
  {
    assert Elems(visited + [n]) == Elems(visited) + {n};
    assert (visited + [n])[..|visited|] == visited;
    WithoutTwice(NodeOrder(edges), Elems(visited), {n});
  }

  /** One more step keeps every step a first maximum-degree choice. */
  lemma StepChoices<N>(edges: seq<(N, N)>, visited: seq<N>, n: N)
    requires forall k :: 0 <= k < |visited| ==>
               IsFirstMax(StepCandidates(edges, visited[..k]), Degrees(edges), visited[k])
    requires IsFirstMax(StepCandidates(edges, visited), Degrees(edges), n)
    ensures forall k :: 0 <= k < |visited + [n]| ==>
              IsFirstMax(StepCandidates(edges, (visited + [n])[..k]), Degrees(edges), (visited + [n])[k])
  {
    var ordering := visited + [n];
    forall k | 0 <= k < |ordering|
      ensures IsFirstMax(StepCandidates(edges, ordering[..k]), Degrees(edges), ordering[k])
    {
      if k < |visited| {
        EarlierChoice(edges, visited, n, k);
      } else {
        assert ordering[..k] == visited;
      }
    }
  }

  /** Appending a node leaves the earlier steps' choices as they were. */
  lemma EarlierChoice<N>(edges: seq<(N, N)>, visited: seq<N>, n: N, k: nat)
    requires k < |visited|
    requires IsFirstMax(StepCandidates(edges, visited[..k]), Degrees(edges), visited[k])
    ensures IsFirstMax(StepCandidates(edges, (visited + [n])[..k]), Degrees(edges), (visited + [n])[k])
  {
    assert (visited + [n])[..k] == visited[..k];
    assert (visited + [n])[k] == visited[k];
  }

  /** walk_sort(edges) */
  method WalkSort<N(==)>(edges: seq<(N, N)>) returns (ordering: seq<N>)
    ensures IsWalk(edges, ordering)
  {
    var w := new Walker(edges);
    ordering := [];
    WithoutNothing(NodeOrder(edges));
    assert Elems(ordering) == {};
    while w.keys != []  // `while degree:`, the dictionary is not empty
      invariant w.Valid() && w.edges == edges
      invariant w.keys == Without(NodeOrder(edges), Elems(ordering))
      invariant w.degree == Degrees(edges) - Elems(ordering)
      invariant w.connected == Reached(edges, ordering)
      invariant forall k :: 0 <= k < |ordering| ==>
                  IsFirstMax(StepCandidates(edges, ordering[..k]), Degrees(edges), ordering[k])
      decreases |w.keys|
    {
      var next := w.MaxDegreeNode();
      if next.Some? {
        var n := next.value;
        WithoutShrinks(Without(NodeOrder(edges), Elems(ordering)), {n}, n);
        StepState(edges, ordering, n);
        IsFirstMaxRestricted(StepCandidates(edges, ordering), Degrees(edges), Elems(ordering), n);
        StepChoices(edges, ordering, n);
        ordering := ordering + [n];
      } else {
        break;
      }
    }
  }

  // ---------------------------------------------------------------------------
  // What the walk promises
  // ---------------------------------------------------------------------------

  /** `connected` holds exactly the neighbours of the nodes visited so far. */
  lemma {:induction false} ReachedIff<N>(edges: seq<(N, N)>, visited: seq<N>, m: N)
    ensures m in Reached(edges, visited) <==> exists j :: 0 <= j < |visited| && Adjacent(edges, visited[j], m)
  {
    if visited != [] {
      var init, last := visited[..|visited| - 1], visited[|visited| - 1];
      ReachedIff(edges, init, m);
      if m in Reached(edges, init) {
        var j :| 0 <= j < |init| && Adjacent(edges, init[j], m);
        assert visited[j] == init[j];
      } else if m in Neighbours(edges, last) {
        assert Adjacent(edges, visited[|visited| - 1], m);
      }
      if j :| 0 <= j < |visited| && Adjacent(edges, visited[j], m) {
        if j < |init| {
          assert init[j] == visited[j];
        }
      }
    }
  }

  /** The walk never repeats a node, lists only nodes of the graph, and so is
      no longer than the number of distinct nodes. */
  lemma WalkVisitsDistinctNodes<N>(edges: seq<(N, N)>, ordering: seq<N>)
    requires IsWalk(edges, ordering)
    ensures NoDup(ordering)
    ensures forall k :: 0 <= k < |ordering| ==> ordering[k] in Nodes(edges)
    ensures |ordering| <= |Nodes(edges)|
  {
    forall k | 0 <= k < |ordering|
      ensures ordering[k] in Nodes(edges) && ordering[k] !in Elems(ordering[..k])
    {
      var cands := StepCandidates(edges, ordering[..k]);
      assert IsFirstMax(cands, Degrees(edges), ordering[k]);
      assert ordering[k] in cands;
    }
    forall i, j | 0 <= i < j < |ordering| ensures ordering[i] != ordering[j] {
      assert ordering[i] in Elems(ordering[..j]);
    }
    NoDupSize(ordering);
    assert Elems(ordering) <= Nodes(edges);
    SubsetSize(Elems(ordering), Nodes(edges));
  }

  lemma {:induction false} SubsetSize<N>(a: set<N>, b: set<N>)
    requires a <= b
    ensures |a| <= |b|
  {
    if a != {} {
      var x :| x in a;
      SubsetSize(a - {x}, b - {x});
    }
  }

  lemma {:induction false} EndpointsAreNodes<N>(edges: seq<(N, N)>, i: nat)
    requires i < |edges|
    ensures edges[i].0 in Nodes(edges) && edges[i].1 in Nodes(edges)
  {
    if i < |edges| - 1 {
      EndpointsAreNodes(edges[..|edges| - 1], i);
    }
  }

  /** The first node has the highest degree of the whole graph, the first such
      in dictionary order; an edge list that is not empty gives a walk that is
      not empty. */
  lemma WalkStartsAtHub<N>(edges: seq<(N, N)>, ordering: seq<N>)
    requires IsWalk(edges, ordering)
    requires edges != []
    ensures ordering != []
    ensures IsFirstMax(NodeOrder(edges), Degrees(edges), ordering[0])
    ensures forall n :: n in Nodes(edges) ==> Degrees(edges)[n] <= Degrees(edges)[ordering[0]]
  {
    WithoutNothing(NodeOrder(edges));
    assert Elems<N>([]) == {};
    assert StepCandidates(edges, []) == NodeOrder(edges);
    EndpointsAreNodes(edges, 0);
    assert edges[0].0 in NodeOrder(edges);
    assert ordering[..0] == [];
    var cands := NodeOrder(edges);
    assert IsFirstMax(cands, Degrees(edges), ordering[0]);
    forall n | n in Nodes(edges) ensures Degrees(edges)[n] <= Degrees(edges)[ordering[0]] {
      var j :| 0 <= j < |cands| && cands[j] == n;
    }
  }

  /** Every node after the first is a neighbour of a node listed before it. */
  lemma WalkFollowsEdges<N>(edges: seq<(N, N)>, ordering: seq<N>)
    requires IsWalk(edges, ordering)
    ensures forall k :: 0 < k < |ordering| ==> exists j :: 0 <= j < k && Adjacent(edges, ordering[j], ordering[k])
  {
    if ordering != [] {
      WalkVisitsDistinctNodes(edges, ordering);
      assert ordering[0] in Nodes(edges);
    }
    forall k | 0 < k < |ordering|
      ensures exists j :: 0 <= j < k && Adjacent(edges, ordering[j], ordering[k])
    {
      StepFollowsEdge(edges, ordering, k);
    }
  }

  /** The node of step `k > 0` is a neighbour of an earlier node. */
  lemma StepFollowsEdge<N>(edges: seq<(N, N)>, ordering: seq<N>, k: nat)
    requires 0 < k < |ordering|
    requires ordering[0] in Nodes(edges)
    requires IsFirstMax(StepCandidates(edges, ordering[..k]), Degrees(edges), ordering[k])
    ensures exists j :: 0 <= j < k && Adjacent(edges, ordering[j], ordering[k])
  {
    FirstMaxIsCandidate(StepCandidates(edges, ordering[..k]), Degrees(edges), ordering[k]);
    CandidateFollowsEdge(edges, ordering, k);
  }

  /** A first-max choice is one of the candidates. */
  lemma FirstMaxIsCandidate<N>(cands: seq<N>, degree: map<N, nat>, n: N)
    requires IsFirstMax(cands, degree, n)
    ensures n in cands
  {
    var i :| 0 <= i < |cands| && cands[i] == n;
  }

  /** A candidate of a step after the first lies in `connected`, so it is a
      neighbour of a node popped earlier. */
  lemma CandidateFollowsEdge<N>(edges: seq<(N, N)>, ordering: seq<N>, k: nat)
    requires 0 < k < |ordering|
    requires ordering[0] in Nodes(edges)
    requires ordering[k] in StepCandidates(edges, ordering[..k])
    ensures exists j :: 0 <= j < k && Adjacent(edges, ordering[j], ordering[k])
  {
    var visited := ordering[..k];
    NodeHasNeighbour(edges, ordering[0]);
    var m :| m in Neighbours(edges, ordering[0]);
    ReachedIff(edges, visited, m);
    assert visited[0] == ordering[0];
    assert Reached(edges, visited) != {};
    assert ordering[k] in Reached(edges, visited);
    ReachedIff(edges, visited, ordering[k]);
    var j :| 0 <= j < k && Adjacent(edges, visited[j], ordering[k]);
    assert visited[j] == ordering[j];
  }

  /** When the walk stops, every neighbour of a listed node is listed. */
  lemma WalkIsClosed<N>(edges: seq<(N, N)>, ordering: seq<N>)
    requires IsWalk(edges, ordering)
    ensures Closed(edges, Elems(ordering))
  {
    forall a, b | a in Elems(ordering) && b in Neighbours(edges, a)
      ensures b in Elems(ordering)
    {
      var i :| 0 <= i < |ordering| && ordering[i] == a;
      ReachedIff(edges, ordering, b);
      NeighboursAreNodes(edges, a);
      assert b in NodeOrder(edges);
      var rest := Without(NodeOrder(edges), Elems(ordering));
      assert Within(rest, Reached(edges, ordering)) == [];
    }
  }

  lemma {:induction false} ClosedHoldsPrefix<N>(edges: seq<(N, N)>, ordering: seq<N>, s: set<N>, k: nat)
    requires k < |ordering| && ordering[0] in s && Closed(edges, s)
    requires forall i :: 0 < i < |ordering| ==> exists j :: 0 <= j < i && Adjacent(edges, ordering[j], ordering[i])
    ensures forall i :: 0 <= i <= k ==> ordering[i] in s
  {
    if k > 0 {
      ClosedHoldsPrefix(edges, ordering, s, k - 1);
      var j :| 0 <= j < k && Adjacent(edges, ordering[j], ordering[k]);
      assert Neighbours(edges, ordering[j]) <= s;
    }
  }

  /** The walk lists exactly the connected component of its first node: a set
      closed under adjacency, contained in every such set holding that node. */
  lemma WalkIsComponent<N>(edges: seq<(N, N)>, ordering: seq<N>)
    requires IsWalk(edges, ordering)
    requires ordering != []
    ensures Closed(edges, Elems(ordering))
    ensures forall s :: ordering[0] in s && Closed(edges, s) ==> Elems(ordering) <= s
  {
    WalkIsClosed(edges, ordering);
    WalkFollowsEdges(edges, ordering);
    forall s | ordering[0] in s && Closed(edges, s) ensures Elems(ordering) <= s {
      ClosedHoldsPrefix(edges, ordering, s, |ordering| - 1);
    }
  }
}
