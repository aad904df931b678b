/**
  Group colouring (util.py, assign_entity_colors).

  Pairs are merged into a list of groups; then each group, in list order,
  draws a colour from the palette and writes it to every id it holds, so a
  later group overwrites the colour an earlier one gave.

  The source's inner loop is a `for ... else` with no `break`, so its `else`
  branch runs for every pair: every pair appends a group of its own, besides
  adding both ids to every existing group that holds either.  AssignEntityColors
  models that code as written; AssignEntityColorsFirstMatch models the loop
  with the `break` it evidently lacks.
 */
module EntityColors {

  /** The random draws of `random.choice(palette)`, one per group, as palette
      positions chosen by the caller. */
  predicate ValidDraws<C>(picks: seq<nat>, palette: seq<C>, n: nat)
  {
    |picks| == n && forall g :: 0 <= g < |picks| ==> picks[g] < |palette|
  }

  /** Every id that occurs in a pair. */
  function Ids<N>(pairs: seq<(N, N)>): set<N>
  {
    if pairs == [] then {}
    else Ids(pairs[..|pairs| - 1]) + {pairs[|pairs| - 1].0, pairs[|pairs| - 1].1}
  }

  /** The ids held by some group. */
  function Union<N>(groups: seq<set<N>>): set<N>
  {
    if groups == [] then {} else Union(groups[..|groups| - 1]) + groups[|groups| - 1]
  }

  // ---------------------------------------------------------------------------
  // Grouping as written: no `break`
  // ---------------------------------------------------------------------------

  /** The inner loop: every group that holds `a` or `b` gains both. */
  function Grow<N>(groups: seq<set<N>>, a: N, b: N): seq<set<N>>
  {
    seq(|groups|, i requires 0 <= i < |groups| =>
      if a in groups[i] || b in groups[i] then groups[i] + {a, b} else groups[i])
  }

  /** The list of groups after the first loop of assign_entity_colors. */
  function Grouped<N>(pairs: seq<(N, N)>): (r: seq<set<N>>)
    ensures |r| == |pairs|
  {
    if pairs == [] then []
    else
      var p := pairs[|pairs| - 1];
      Grow(Grouped(pairs[..|pairs| - 1]), p.0, p.1) + [{p.0, p.1}]
  }

  /** The group appended for a pair holds both of its ids, and still does at the end. */
  lemma {:induction false} GroupHoldsItsPair<N>(pairs: seq<(N, N)>)
    ensures forall i :: 0 <= i < |pairs| ==> pairs[i].0 in Grouped(pairs)[i] && pairs[i].1 in Grouped(pairs)[i]
  {
    if pairs != [] {
      var init := pairs[..|pairs| - 1];
      GroupHoldsItsPair(init);
      forall i | 0 <= i < |init| ensures pairs[i].0 in Grouped(pairs)[i] && pairs[i].1 in Grouped(pairs)[i] {
        assert pairs[i] == init[i];
        assert Grouped(init)[i] <= Grouped(pairs)[i];
      }
    }
  }

  /** Groups only grow: group `i` after the first `k` pairs is contained in group `i` at the end. */
  lemma {:induction false} GroupsOnlyGrow<N>(pairs: seq<(N, N)>, k: nat)
    requires k <= |pairs|
    ensures forall i :: 0 <= i < k ==> Grouped(pairs[..k])[i] <= Grouped(pairs)[i]
  {
    if k < |pairs| {
      var init := pairs[..|pairs| - 1];
      assert init[..k] == pairs[..k];
      GroupsOnlyGrow(init, k);
      forall i | 0 <= i < k ensures Grouped(init)[i] <= Grouped(pairs)[i] {
      }
    } else {
      assert pairs[..k] == pairs;
    }
  }

  /** The groups hold exactly the ids of the pairs. */
  lemma {:induction false} GroupsCoverIds<N>(pairs: seq<(N, N)>)
    ensures Union(Grouped(pairs)) == Ids(pairs)
  {
    if pairs != [] {
      var init := pairs[..|pairs| - 1];
      var p := pairs[|pairs| - 1];
      GroupsCoverIds(init);
      GrowUnion(Grouped(init), p.0, p.1);
      var gs := Grouped(pairs);
      assert gs[..|gs| - 1] == Grow(Grouped(init), p.0, p.1);
    }
  }

  lemma {:induction false} GrowUnion<N>(groups: seq<set<N>>, a: N, b: N)
    ensures Union(groups) <= Union(Grow(groups, a, b)) <= Union(groups) + {a, b}
  {
    if groups != [] {
      var init := groups[..|groups| - 1];
      GrowUnion(init, a, b);
      assert Grow(groups, a, b)[..|groups| - 1] == Grow(init, a, b);
    }
  }

  // ---------------------------------------------------------------------------
  // Painting: later groups overwrite earlier ones
  // ---------------------------------------------------------------------------

  /** The colour map after the second loop: group `g` writes `palette[picks[g]]`
      to each of its ids, in list order. */
  function Paint<N, C>(groups: seq<set<N>>, palette: seq<C>, picks: seq<nat>): map<N, C>
    requires |picks| >= |groups|
    requires forall g :: 0 <= g < |picks| ==> picks[g] < |palette|
  {
    if groups == [] then map[]
    else
      var g := |groups| - 1;
      Paint(groups[..g], palette, picks) + map x | x in groups[g] :: palette[picks[g]]
  }

  /** `c` is the colour of the last group that holds `x`. */
  ghost predicate ColourOfLastGroup<N, C>(groups: seq<set<N>>, palette: seq<C>, picks: seq<nat>, x: N, c: C)
    requires |picks| >= |groups|
    requires forall g :: 0 <= g < |picks| ==> picks[g] < |palette|
  {
    exists g :: 0 <= g < |groups| && x in groups[g] && c == palette[picks[g]]
      && forall h :: g < h < |groups| ==> x !in groups[h]
  }

  /** Painting colours exactly the grouped ids, each with a palette entry: the
      one drawn for the last group that holds it. */
  lemma {:induction false} PaintIsLastGroup<N, C>(groups: seq<set<N>>, palette: seq<C>, picks: seq<nat>)
    requires |picks| >= |groups|
    requires forall g :: 0 <= g < |picks| ==> picks[g] < |palette|
    ensures Paint(groups, palette, picks).Keys == Union(groups)
    ensures forall x :: x in Paint(groups, palette, picks) ==> Paint(groups, palette, picks)[x] in palette
    ensures forall x :: x in Paint(groups, palette, picks) ==>
              ColourOfLastGroup(groups, palette, picks, x, Paint(groups, palette, picks)[x])
  {
    if groups != [] {
      var g := |groups| - 1;
      var init := groups[..g];
      PaintIsLastGroup(init, palette, picks);
      var m := Paint(groups, palette, picks);
      forall x | x in m
        ensures m[x] in palette && ColourOfLastGroup(groups, palette, picks, x, m[x])
      {
        if x in groups[g] {
          assert m[x] == palette[picks[g]];
        } else {
          EarlierGroupStaysLast(groups, palette, picks, x, m[x]);
        }
      }
    }
  }

  /** An id the last group does not hold keeps the colour of its last group among the earlier ones. */
  lemma EarlierGroupStaysLast<N, C>(groups: seq<set<N>>, palette: seq<C>, picks: seq<nat>, x: N, c: C)
    requires |picks| >= |groups| > 0
    requires forall g :: 0 <= g < |picks| ==> picks[g] < |palette|
    requires x !in groups[|groups| - 1]
    requires ColourOfLastGroup(groups[..|groups| - 1], palette, picks, x, c)
    ensures ColourOfLastGroup(groups, palette, picks, x, c)
  {
    var init := groups[..|groups| - 1];
    var h :| 0 <= h < |init| && x in init[h] && c == palette[picks[h]]
             && forall h' :: h < h' < |init| ==> x !in init[h'];
    assert groups[h] == init[h];
    forall h' | h < h' < |groups| ensures x !in groups[h'] {
      if h' < |init| {
        assert groups[h'] == init[h'];
      }
    }
  }

  // ---------------------------------------------------------------------------
  // assign_entity_colors as written
  // ---------------------------------------------------------------------------

  /** The grouping loop of assign_entity_colors as written. */
  method GroupPairs<N(==)>(pairs: seq<(N, N)>) returns (groups: seq<set<N>>)
    ensures groups == Grouped(pairs)
  {
    groups := [];
    for i := 0 to |pairs|
      invariant groups == Grouped(pairs[..i])
    {
      var (a, b) := pairs[i];
      ghost var before := groups;
      for j := 0 to |groups|
        invariant |groups| == |before|
        invariant forall t :: 0 <= t < j ==> groups[t] == Grow(before, a, b)[t]
        invariant forall t :: j <= t < |groups| ==> groups[t] == before[t]
      {
        if a in groups[j] || b in groups[j] {
          groups := groups[j := groups[j] + {a, b}];
        }
      }
      // the loop's `else` branch: with no `break`, it runs for every pair
      groups := groups + [{a, b}];
      assert pairs[..i + 1][..i] == pairs[..i];
    }
    assert pairs[..|pairs|] == pairs;
  }

  /** The painting loop: each group in turn writes its drawn colour to its ids. */
  method PaintGroups<N(==), C>(groups: seq<set<N>>, palette: seq<C>, picks: seq<nat>)
    returns (colors: map<N, C>)
    requires |picks| >= |groups|
    requires forall g :: 0 <= g < |picks| ==> picks[g] < |palette|
    ensures colors == Paint(groups, palette, picks)
    ensures colors.Keys == Union(groups)
    ensures forall x :: x in colors ==> colors[x] in palette
  {
    colors := map[];
    for g := 0 to |groups|
      invariant colors == Paint(groups[..g], palette, picks)
    {
      var color := palette[picks[g]];
      var rest := groups[g];
      while rest != {}
        invariant rest <= groups[g]
        invariant colors == Paint(groups[..g], palette, picks) + map x | x in groups[g] - rest :: color
        decreases rest
      {
        var id :| id in rest;
        colors := colors[id := color];
        rest := rest - {id};
      }
      assert groups[..g + 1][..g] == groups[..g];
    }
    assert groups[..|groups|] == groups;
    PaintIsLastGroup(groups, palette, picks);
  }

  /** assign_entity_colors(pairs), with `random.choice` drawing `palette[picks[g]]`
      for group `g`. */
  method AssignEntityColors<N(==), C>(pairs: seq<(N, N)>, palette: seq<C>, picks: seq<nat>)
    returns (colors: map<N, C>)
    requires ValidDraws(picks, palette, |pairs|)
    ensures colors == Paint(Grouped(pairs), palette, picks)
    ensures colors.Keys == Ids(pairs)
    ensures forall x :: x in colors ==> colors[x] in palette
  {
    var groups := GroupPairs(pairs);
    colors := PaintGroups(groups, palette, picks);
    GroupsCoverIds(pairs);
  }

  /** With the palette [0, 1] drawn in order, the chain (1, 2), (2, 3) leaves
      the two ids of its first pair with different colours: the pair (2, 3)
      adds 3 to the first group and then opens a second group of its own,
      which repaints 2. */
  lemma PairSplitAsWritten()
    ensures Grouped([(1, 2), (2, 3)]) == [{1, 2, 3}, {2, 3}]
    ensures Paint(Grouped([(1, 2), (2, 3)]), [0, 1], [0, 1]) == map[1 := 0, 2 := 1, 3 := 1]
  {
    var first := Grouped([(1, 2), (2, 3)][..1]);
    assert [(1, 2), (2, 3)][..1] == [(1, 2)];
    assert first == [{1, 2}];
    var gs := Grouped([(1, 2), (2, 3)]);
    assert gs == Grow([{1, 2}], 2, 3) + [{2, 3}];
    assert Grow([{1, 2}], 2, 3)[0] == {1, 2} + {2, 3} == {1, 2, 3};
    assert gs == [{1, 2, 3}, {2, 3}];
    assert gs[..1] == [{1, 2, 3}];
    assert Paint(gs[..1], [0, 1], [0, 1]) == map[1 := 0, 2 := 0, 3 := 0];
  }

  // ---------------------------------------------------------------------------
  // Grouping with the missing `break`: the first group that holds either id
  // takes the pair, and a new group opens only when no group does
  // ---------------------------------------------------------------------------

  /** The pair `p` has an id in `g`. */
  predicate Touches<N>(g: set<N>, p: (N, N))
  {
    p.0 in g || p.1 in g
  }

  /** The position of the first group that holds an id of `p`, or `|groups|` if none does. */
  function FirstTouching<N>(groups: seq<set<N>>, p: (N, N)): (r: nat)
    ensures r <= |groups|
    ensures r < |groups| ==> Touches(groups[r], p)
    ensures forall t :: 0 <= t < r ==> !Touches(groups[t], p)
  {
    if groups == [] then 0
    else if Touches(groups[0], p) then 0
    else 1 + FirstTouching(groups[1..], p)
  }

  /** One step of the grouping loop with `break`. */
  function Place<N>(groups: seq<set<N>>, p: (N, N)): seq<set<N>>
  {
    var k := FirstTouching(groups, p);
    if k < |groups| then groups[k := groups[k] + {p.0, p.1}] else groups + [{p.0, p.1}]
  }

  /** The list of groups after the grouping loop with `break`: at most one group per pair. */
  function GroupedFirst<N>(pairs: seq<(N, N)>): (r: seq<set<N>>)
    ensures |r| <= |pairs|
  {
    if pairs == [] then [] else Place(GroupedFirst(pairs[..|pairs| - 1]), pairs[|pairs| - 1])
  }

  /** No two groups share an id. */
  ghost predicate Disjoint<N>(groups: seq<set<N>>)
  {
    forall s, t :: 0 <= s < t < |groups| ==> groups[s] !! groups[t]
  }

  /** Both ids of `p` lie in one group. */
  ghost predicate Together<N>(groups: seq<set<N>>, p: (N, N))
  {
    exists t :: 0 <= t < |groups| && p.0 in groups[t] && p.1 in groups[t]
  }

  /** No pair touches two groups formed by the pairs before it, so the greedy
      grouping never has to choose between groups. */
  ghost predicate NoBridge<N>(pairs: seq<(N, N)>)
  {
    forall i, s, t :: 0 <= i < |pairs| && 0 <= s < t < |GroupedFirst(pairs[..i])|
      && Touches(GroupedFirst(pairs[..i])[s], pairs[i])
      ==> !Touches(GroupedFirst(pairs[..i])[t], pairs[i])
  }

  /** Placing a pair only grows groups, and leaves both of its ids in one group. */
  lemma PlaceGrows<N>(groups: seq<set<N>>, p: (N, N))
    ensures |groups| <= |Place(groups, p)|
    ensures forall t :: 0 <= t < |groups| ==> groups[t] <= Place(groups, p)[t]
    ensures Together(Place(groups, p), p)
  {
    var k := FirstTouching(groups, p);
    assert p.0 in Place(groups, p)[k] && p.1 in Place(groups, p)[k];
  }

  /** Placing a pair that touches at most one group keeps the groups disjoint. */
  lemma PlaceKeepsDisjoint<N>(groups: seq<set<N>>, p: (N, N))
    requires Disjoint(groups)
    requires forall s, t :: 0 <= s < t < |groups| && Touches(groups[s], p) ==> !Touches(groups[t], p)
    ensures Disjoint(Place(groups, p))
  {
    var k := FirstTouching(groups, p);
    var r := Place(groups, p);
    forall s, t | 0 <= s < t < |r| ensures r[s] !! r[t] {
      if s == k {
        assert !Touches(groups[t], p);
      } else if t == k {
        assert !Touches(groups[s], p);
      }
    }
  }

  /** Without a bridging pair, the grouping with `break` yields disjoint groups,
      and both ids of every pair lie in one of them. */
  lemma {:induction false} FirstMatchGroups<N>(pairs: seq<(N, N)>)
    requires NoBridge(pairs)
    ensures Disjoint(GroupedFirst(pairs))
    ensures forall i :: 0 <= i < |pairs| ==> Together(GroupedFirst(pairs), pairs[i])
  {
    if pairs != [] {
      var n := |pairs| - 1;
      var init := pairs[..n];
      forall i | 0 <= i < |init| ensures init[..i] == pairs[..i] {
      }
      assert NoBridge(init);
      FirstMatchGroups(init);
      var before := GroupedFirst(init);
      assert pairs[..n] == init;
      PlaceKeepsDisjoint(before, pairs[n]);
      PlaceGrows(before, pairs[n]);
      forall i | 0 <= i < |pairs| ensures Together(GroupedFirst(pairs), pairs[i]) {
        if i < n {
          assert pairs[i] == init[i];
          var t :| 0 <= t < |before| && init[i].0 in before[t] && init[i].1 in before[t];
          assert before[t] <= GroupedFirst(pairs)[t];
        }
      }
    }
  }

  /** Painting disjoint groups gives every id the colour of its own group. */
  lemma PaintDisjoint<N, C>(groups: seq<set<N>>, palette: seq<C>, picks: seq<nat>, t: nat, x: N)
    requires |picks| >= |groups|
    requires forall g :: 0 <= g < |picks| ==> picks[g] < |palette|
    requires Disjoint(groups)
    requires t < |groups| && x in groups[t]
    ensures x in Paint(groups, palette, picks)
    ensures Paint(groups, palette, picks)[x] == palette[picks[t]]
  {
    PaintIsLastGroup(groups, palette, picks);
    UnionHolds(groups, t);
    var m := Paint(groups, palette, picks);
    var g :| 0 <= g < |groups| && x in groups[g] && m[x] == palette[picks[g]]
             && forall h :: g < h < |groups| ==> x !in groups[h];
    assert g == t;
  }

  lemma {:induction false} UnionHolds<N>(groups: seq<set<N>>, t: nat)
    requires t < |groups|
    ensures groups[t] <= Union(groups)
  {
    if t < |groups| - 1 {
      UnionHolds(groups[..|groups| - 1], t);
    }
  }

  /** The evident intent of assign_entity_colors: without a bridging pair, the
      two ids of every pair receive the same colour. */
  lemma FirstMatchColoursPairsAlike<N, C>(pairs: seq<(N, N)>, palette: seq<C>, picks: seq<nat>)
    requires ValidDraws(picks, palette, |pairs|)
    requires NoBridge(pairs)
    ensures forall i :: 0 <= i < |pairs| ==>
      var m := Paint(GroupedFirst(pairs), palette, picks);
      pairs[i].0 in m && pairs[i].1 in m && m[pairs[i].0] == m[pairs[i].1]
  {
    var gs := GroupedFirst(pairs);
    FirstMatchGroups(pairs);
    forall i | 0 <= i < |pairs|
      ensures pairs[i].0 in Paint(gs, palette, picks) && pairs[i].1 in Paint(gs, palette, picks)
      ensures Paint(gs, palette, picks)[pairs[i].0] == Paint(gs, palette, picks)[pairs[i].1]
    {
      var t :| 0 <= t < |gs| && pairs[i].0 in gs[t] && pairs[i].1 in gs[t];
      PaintDisjoint(gs, palette, picks, t, pairs[i].0);
      PaintDisjoint(gs, palette, picks, t, pairs[i].1);
    }
  }

  /** The chain (1, 2), (2, 3) has no bridging pair, so the corrected grouping
      keeps its three ids in one group. */
  lemma ChainOneGroup()
    ensures GroupedFirst([(1, 2), (2, 3)]) == [{1, 2, 3}]
    ensures NoBridge([(1, 2), (2, 3)])
  {
    var pairs := [(1, 2), (2, 3)];
    assert pairs[..0] == [];
    assert pairs[..1] == [(1, 2)];
    assert GroupedFirst(pairs[..1]) == [{1, 2}];
    assert FirstTouching([{1, 2}], (2, 3)) == 0;
    assert GroupedFirst(pairs) == Place([{1, 2}], (2, 3)) == [{1, 2} + {2, 3}];
    assert {1, 2} + {2, 3} == {1, 2, 3};
  }

  /** The grouping loop with the `break` restored: the scan stops at the first
      group that holds an id of the pair, and only a pair no group holds opens
      a new group. */
  method GroupPairsFirstMatch<N(==)>(pairs: seq<(N, N)>) returns (groups: seq<set<N>>)
    ensures groups == GroupedFirst(pairs)
  {
    groups := [];
    for i := 0 to |pairs|
      invariant groups == GroupedFirst(pairs[..i])
    {
      var p := pairs[i];
      var j := 0;
      var found := false;
      while j < |groups|
        invariant j <= |groups|
        invariant !found
        invariant forall t :: 0 <= t < j ==> !Touches(groups[t], p)
      {
        if Touches(groups[j], p) {
          found := true;
          break;
        }
        j := j + 1;
      }
      if found {
        groups := groups[j := groups[j] + {p.0, p.1}];
      } else {
        groups := groups + [{p.0, p.1}];
      }
      assert pairs[..i + 1][..i] == pairs[..i];
    }
    assert pairs[..|pairs|] == pairs;
  }

  /** assign_entity_colors with the `break` restored. */
  method AssignEntityColorsFirstMatch<N(==), C>(pairs: seq<(N, N)>, palette: seq<C>, picks: seq<nat>)
    returns (colors: map<N, C>)
    requires ValidDraws(picks, palette, |pairs|)
    ensures colors == Paint(GroupedFirst(pairs), palette, picks)
    ensures NoBridge(pairs) ==> forall i :: 0 <= i < |pairs| ==>
      pairs[i].0 in colors && pairs[i].1 in colors && colors[pairs[i].0] == colors[pairs[i].1]
  {
    var groups := GroupPairsFirstMatch(pairs);
    colors := PaintGroups(groups, palette, picks);
    if NoBridge(pairs) {
      FirstMatchColoursPairsAlike(pairs, palette, picks);
    }
  }
}
