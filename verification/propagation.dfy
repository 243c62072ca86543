/**
 * The whole grid: `subgrid_map`, which runs a group function on every row,
 * column and block, and the grid-level operations built on it —
 * `grid_consistency`, `grid_heuristics`, `grid_solved` and `grid_choice`.
 *
 * A solution of a grid of side `n` is a sequence of `n * n` colours whose
 * restriction to every group is a filling (`IsSolution`). A candidate grid
 * admits a solution when every cell's candidates contain the solution's
 * colour and no candidate lies at or above the side (`Admits`). The main
 * facts proved here: propagation to a fixpoint only removes candidates and
 * never loses an admitted solution, and `grid_consistency` holds exactly
 * when every group is consistent.
 */
module Propagation {
  import opened PSets
  import opened Grids
  import opened Subgrids
  import opened Heuristics

  // ---------------------------------------------------------------------
  // A group inside the grid
  // ---------------------------------------------------------------------

  /** The colour sets of the cells a group designates. */
  ghost function PickSets(G: seq<set<nat>>, grp: seq<nat>): (S: seq<set<nat>>)
    ensures |S| == |grp|
  {
    seq(|grp|, k requires 0 <= k < |grp| => if grp[k] < |G| then G[grp[k]] else {})
  }

  /** The colours a grid-wide choice picks on the cells of a group. */
  ghost function PickVals(sol: seq<nat>, grp: seq<nat>): (vals: seq<nat>)
    ensures |vals| == |grp|
  {
    seq(|grp|, k requires 0 <= k < |grp| => if grp[k] < |sol| then sol[grp[k]] else 0)
  }

  /** Every group of the grid is filled: one colour per cell, all rules of the game respected. */
  ghost predicate IsSolution(n: nat, sol: seq<nat>)
  {
    && ValidSize(n)
    && |sol| == n * n
    && forall t | 0 <= t < |Groups(n)| :: Filling(PickVals(sol, Groups(n)[t]))
  }

  /** No candidate of any cell lies at or above the side. */
  ghost predicate GridWithin(G: seq<set<nat>>, n: nat)
  {
    forall c | 0 <= c < |G| :: G[c] <= RangeSet(n)
  }

  /** The candidate grid `G` still allows the solution `sol`. */
  ghost predicate Admits(n: nat, G: seq<set<nat>>, sol: seq<nat>)
  {
    IsSolution(n, sol) && Fits(G, sol) && GridWithin(G, n)
  }

  /** Every group of the grid is consistent. */
  ghost predicate GridConsistent(G: seq<set<nat>>, n: nat)
  {
    ValidSize(n) && forall t | 0 <= t < |Groups(n)| :: GroupConsistent(PickSets(G, Groups(n)[t]))
  }

  /** Every cell holds exactly one colour. */
  ghost predicate AllSingletons(G: seq<set<nat>>)
  {
    forall c | 0 <= c < |G| :: |G[c]| == 1
  }

  lemma GatherView(g: Grid, grp: seq<nat>)
    requires forall k | 0 <= k < |grp| :: grp[k] < |g|
    ensures View(Gather(g, grp)) == PickSets(View(g), grp)
  {
    forall k | 0 <= k < |grp| ensures View(Gather(g, grp))[k] == PickSets(View(g), grp)[k] {
      ViewAt(Gather(g, grp), k);
      ViewAt(g, grp[k]);
    }
  }

  /** `H` is `G` with the colour sets `T` written through the group `grp`. */
  ghost predicate WrittenBack(G: seq<set<nat>>, H: seq<set<nat>>, grp: seq<nat>, T: seq<set<nat>>)
  {
    && |H| == |G| && |T| == |grp|
    && (forall k | 0 <= k < |grp| :: grp[k] < |H| && H[grp[k]] == T[k])
    && (forall c | 0 <= c < |G| && c !in grp :: H[c] == G[c])
  }

  lemma ScatterView(n: nat, g: Grid, grp: seq<nat>, cells: seq<PSet>)
    requires |g| == n * n && GroupOK(n, grp) && |cells| == n
    ensures WrittenBack(View(g), View(Scatter(g, grp, cells)), grp, View(cells))
  {
    var h := Scatter(g, grp, cells);
    ScatterCells(g, grp, cells);
    forall k | 0 <= k < |grp| ensures View(h)[grp[k]] == View(cells)[k] {
      ViewAt(h, grp[k]);
      ViewAt(cells, k);
    }
    forall c | 0 <= c < |g| && c !in grp ensures View(h)[c] == View(g)[c] {
      ViewAt(h, c);
      ViewAt(g, c);
    }
  }

  /** Writing back a group that shrank shrinks the grid. */
  lemma LiftShrinks(n: nat, G: seq<set<nat>>, H: seq<set<nat>>, grp: seq<nat>, T: seq<set<nat>>)
    requires |G| == n * n && GroupOK(n, grp) && WrittenBack(G, H, grp, T)
    requires Shrinks(PickSets(G, grp), T)
    ensures Shrinks(G, H)
  {
    forall c | 0 <= c < |G| ensures H[c] == G[c] || (|G[c]| != 1 && H[c] < G[c]) {
      if c in grp {
        var k :| 0 <= k < |grp| && grp[k] == c;
        assert PickSets(G, grp)[k] == G[c];
      }
    }
  }

  /** A solution that fits the grid fits each group ... */
  lemma PickFits(n: nat, G: seq<set<nat>>, grp: seq<nat>, sol: seq<nat>)
    requires |G| == n * n && GroupOK(n, grp) && Fits(G, sol) && GridWithin(G, n)
    ensures Fits(PickSets(G, grp), PickVals(sol, grp))
    ensures Within(PickSets(G, grp))
  {
  }

  /** ... and still fits the grid once a group it fits is written back. */
  lemma LiftFits(n: nat, G: seq<set<nat>>, H: seq<set<nat>>, grp: seq<nat>, T: seq<set<nat>>, sol: seq<nat>)
    requires |G| == n * n && GroupOK(n, grp) && WrittenBack(G, H, grp, T)
    requires Fits(G, sol) && Fits(T, PickVals(sol, grp))
    ensures Fits(H, sol)
  {
    forall c | 0 <= c < |H| ensures sol[c] in H[c] {
      if c in grp {
        var k :| 0 <= k < |grp| && grp[k] == c;
        assert PickVals(sol, grp)[k] == sol[c];
      }
    }
  }

  /** The group `t` of a solution is a filling. */
  lemma SolutionGroup(n: nat, sol: seq<nat>, t: nat)
    requires IsSolution(n, sol) && t < 3 * n
    ensures Filling(PickVals(sol, Groups(n)[t]))
  {
  }

  // ---------------------------------------------------------------------
  // subgrid_map
  // ---------------------------------------------------------------------

  /** The group functions `subgrid_map` is called with. */
  datatype GroupOp = RunHeuristics | CheckConsistency

  /** One group function on the cells of one group. `subgrid_consistency` only reads them. */
  function ApplyGroup(op: GroupOp, sub: seq<PSet>): (p: Pass)
    requires 1 <= |sub| <= MaxColors
    ensures |p.cells| == |sub|
  {
    match op
    case RunHeuristics => SubgridHeuristics(sub)
    case CheckConsistency => Pass(sub, SubgridConsistency(sub))
  }

  /** Every entry of `gs` is a group of the grid of side `n`. */
  ghost predicate GroupList(n: nat, gs: seq<seq<nat>>)
  {
    forall u | 0 <= u < |gs| :: GroupOK(n, gs[u])
  }

  /** The loop of `subgrid_map` over the groups `gs` from the `t`-th on: the group function always
      runs, and its results are combined into `result`. */
  function MapFrom(g: Grid, n: nat, gs: seq<seq<nat>>, op: GroupOp, t: nat, result: bool): (p: Pass)
    requires ValidSize(n) && |g| == n * n && GroupList(n, gs) && t <= |gs|
    ensures |p.cells| == n * n
    decreases |gs| - t
  {
    if t == |gs| then Pass(g, result)
    else
      ValidSizeBounds(n);
      var q := ApplyGroup(op, Gather(g, gs[t]));
      MapFrom(Scatter(g, gs[t], q.cells), n, gs, op, t + 1, result && q.stable)
  }

  /** `subgrid_map`: the rows, then the columns, then the blocks. */
  function SubgridMap(g: Grid, n: nat, op: GroupOp): (p: Pass)
    requires ValidSize(n) && |g| == n * n
    ensures |p.cells| == n * n
  {
    GroupsOK(n);
    MapFrom(g, n, Groups(n), op, 0, true)
  }

  /** One group of a heuristics sweep only removes candidates ... */
  lemma GroupShrinks(n: nat, g: Grid, grp: seq<nat>)
    requires ValidSize(n) && |g| == n * n && GroupOK(n, grp)
    ensures Shrinks(View(g), View(Scatter(g, grp, SubgridHeuristics(Gather(g, grp)).cells)))
  {
    var q := SubgridHeuristics(Gather(g, grp));
    GatherView(g, grp);
    ScatterView(n, g, grp, q.cells);
    LiftShrinks(n, View(g), View(Scatter(g, grp, q.cells)), grp, View(q.cells));
  }

  /** ... changes the grid exactly when the group function reports a change ... */
  lemma GroupStable(n: nat, g: Grid, grp: seq<nat>)
    requires ValidSize(n) && |g| == n * n && GroupOK(n, grp)
    ensures var q := SubgridHeuristics(Gather(g, grp));
            q.stable <==> Scatter(g, grp, q.cells) == g
  {
    hide SubgridHeuristics;
    var sub := Gather(g, grp);
    var q := SubgridHeuristics(sub);
    var h := Scatter(g, grp, q.cells);
    if q.stable {
      ScatterGather(g, grp);
    }
    if h == g {
      ScatterCells(g, grp, q.cells);
      forall k | 0 <= k < |grp| ensures q.cells[k] == sub[k] {
        assert h[grp[k]] == q.cells[k];
      }
    }
  }

  /** ... and keeps every solution the grid admitted and the group allows. */
  lemma GroupKeeps(n: nat, g: Grid, grp: seq<nat>, sol: seq<nat>)
    requires ValidSize(n) && |g| == n * n && GroupOK(n, grp)
    requires Fits(View(g), sol) && GridWithin(View(g), n) && Filling(PickVals(sol, grp))
    ensures Fits(View(Scatter(g, grp, SubgridHeuristics(Gather(g, grp)).cells)), sol)
  {
    var sub := Gather(g, grp);
    var q := SubgridHeuristics(sub);
    GatherView(g, grp);
    ScatterView(n, g, grp, q.cells);
    PickFits(n, View(g), grp, sol);
    assert Admissible(View(sub), PickVals(sol, grp));
    LiftFits(n, View(g), View(Scatter(g, grp, q.cells)), grp, View(q.cells), sol);
  }

  lemma WithinAfter(n: nat, G: seq<set<nat>>, H: seq<set<nat>>)
    requires Shrinks(G, H) && GridWithin(G, n)
    ensures GridWithin(H, n)
  {
  }

  /** A sweep of the heuristics from group `t` on only removes candidates ... */
  lemma {:induction false} MapShrinks(g: Grid, n: nat, gs: seq<seq<nat>>, t: nat, result: bool)
    requires ValidSize(n) && |g| == n * n && GroupList(n, gs) && t <= |gs|
    ensures Shrinks(View(g), View(MapFrom(g, n, gs, RunHeuristics, t, result).cells))
    decreases |gs| - t
  {
    if t < |gs| {
      ValidSizeBounds(n);
      var q := SubgridHeuristics(Gather(g, gs[t]));
      var h := Scatter(g, gs[t], q.cells);
      var p := MapFrom(h, n, gs, RunHeuristics, t + 1, result && q.stable);
      GroupShrinks(n, g, gs[t]);
      MapShrinks(h, n, gs, t + 1, result && q.stable);
      ShrinksTrans(View(g), View(h), View(p.cells));
    }
  }

  /** ... reports a fixpoint exactly when nothing changed ... */
  lemma {:induction false} MapStable(g: Grid, n: nat, gs: seq<seq<nat>>, t: nat, result: bool)
    requires ValidSize(n) && |g| == n * n && GroupList(n, gs) && t <= |gs|
    ensures var p := MapFrom(g, n, gs, RunHeuristics, t, result);
            p.stable <==> result && p.cells == g
    decreases |gs| - t
  {
    if t < |gs| {
      ValidSizeBounds(n);
      var q := SubgridHeuristics(Gather(g, gs[t]));
      var h := Scatter(g, gs[t], q.cells);
      var p := MapFrom(h, n, gs, RunHeuristics, t + 1, result && q.stable);
      GroupShrinks(n, g, gs[t]);
      GroupStable(n, g, gs[t]);
      MapStable(h, n, gs, t + 1, result && q.stable);
      MapShrinks(h, n, gs, t + 1, result && q.stable);
      ChangedStays(g, h, p.cells);
    }
  }

  /** ... and loses no solution that every group allows. */
  lemma {:induction false} MapKeeps(g: Grid, n: nat, gs: seq<seq<nat>>, t: nat, result: bool, sol: seq<nat>)
    requires ValidSize(n) && |g| == n * n && GroupList(n, gs) && t <= |gs|
    requires Fits(View(g), sol) && GridWithin(View(g), n)
    requires forall u | 0 <= u < |gs| :: Filling(PickVals(sol, gs[u]))
    ensures Fits(View(MapFrom(g, n, gs, RunHeuristics, t, result).cells), sol)
    ensures GridWithin(View(MapFrom(g, n, gs, RunHeuristics, t, result).cells), n)
    decreases |gs| - t
  {
    if t < |gs| {
      ValidSizeBounds(n);
      var q := SubgridHeuristics(Gather(g, gs[t]));
      var h := Scatter(g, gs[t], q.cells);
      GroupShrinks(n, g, gs[t]);
      GroupKeeps(n, g, gs[t], sol);
      WithinAfter(n, View(g), View(h));
      MapKeeps(h, n, gs, t + 1, result && q.stable, sol);
    }
  }

  /** A whole sweep of the heuristics: it only removes candidates, it reports a fixpoint exactly
      when it changed nothing, and it loses no admitted solution. */
  lemma Sweep(g: Grid, n: nat)
    requires ValidSize(n) && |g| == n * n
    ensures var p := SubgridMap(g, n, RunHeuristics);
            && Shrinks(View(g), View(p.cells))
            && (p.stable <==> p.cells == g)
            && forall sol | Admits(n, View(g), sol) :: Admits(n, View(p.cells), sol)
  {
    GroupsOK(n);
    var gs := Groups(n);
    MapShrinks(g, n, gs, 0, true);
    MapStable(g, n, gs, 0, true);
    forall sol | Admits(n, View(g), sol) ensures Admits(n, View(SubgridMap(g, n, RunHeuristics).cells), sol) {
      MapKeeps(g, n, gs, 0, true, sol);
    }
  }

  /** Different cells have different colour sets. */
  lemma ViewChanged(a: Grid, b: Grid)
    requires |a| == |b|
    ensures a != b ==> View(a) != View(b)
  {
    if View(a) == View(b) {
      ViewInjective(a, b);
    }
  }

  /** `subgrid_map` never stops early: every group function runs whatever the results so far, so
      the cells do not depend on the running result, which only enters the final conjunction. */
  lemma {:induction false} MapRunsAll(g: Grid, n: nat, gs: seq<seq<nat>>, op: GroupOp, t: nat, r1: bool, r2: bool)
    requires ValidSize(n) && |g| == n * n && GroupList(n, gs) && t <= |gs|
    ensures MapFrom(g, n, gs, op, t, r1).cells == MapFrom(g, n, gs, op, t, r2).cells
    ensures MapFrom(g, n, gs, op, t, r1).stable == (r1 && MapFrom(g, n, gs, op, t, true).stable)
    decreases |gs| - t
  {
    if t < |gs| {
      ValidSizeBounds(n);
      var q := ApplyGroup(op, Gather(g, gs[t]));
      var h := Scatter(g, gs[t], q.cells);
      MapRunsAll(h, n, gs, op, t + 1, r1 && q.stable, r2 && q.stable);
      MapRunsAll(h, n, gs, op, t + 1, r1 && q.stable, true);
      MapRunsAll(h, n, gs, op, t + 1, q.stable, true);
    }
  }

  /** The consistency sweep from group `t` on leaves the grid alone ... */
  lemma {:induction false} MapReadOnly(g: Grid, n: nat, gs: seq<seq<nat>>, t: nat, result: bool)
    requires ValidSize(n) && |g| == n * n && GroupList(n, gs) && t <= |gs|
    ensures MapFrom(g, n, gs, CheckConsistency, t, result).cells == g
    decreases |gs| - t
  {
    if t < |gs| {
      ValidSizeBounds(n);
      var sub := Gather(g, gs[t]);
      ScatterGather(g, gs[t]);
      MapReadOnly(g, n, gs, t + 1, result && SubgridConsistency(sub));
    }
  }

  /** The groups of `gs` from the `t`-th on are consistent. */
  ghost predicate ConsistentFrom(G: seq<set<nat>>, gs: seq<seq<nat>>, t: nat)
  {
    forall u | t <= u < |gs| :: GroupConsistent(PickSets(G, gs[u]))
  }

  lemma ConsistentFromStep(G: seq<set<nat>>, gs: seq<seq<nat>>, t: nat)
    requires t < |gs|
    ensures ConsistentFrom(G, gs, t) <==> GroupConsistent(PickSets(G, gs[t])) && ConsistentFrom(G, gs, t + 1)
  {
  }

  /** ... and reports whether all the remaining groups are consistent. */
  lemma {:induction false} MapConsistency(g: Grid, n: nat, gs: seq<seq<nat>>, t: nat, result: bool)
    requires ValidSize(n) && |g| == n * n && GroupList(n, gs) && t <= |gs|
    ensures MapFrom(g, n, gs, CheckConsistency, t, result).stable <==> result && ConsistentFrom(View(g), gs, t)
    decreases |gs| - t
  {
    if t < |gs| {
      ValidSizeBounds(n);
      var sub := Gather(g, gs[t]);
      var ok := SubgridConsistency(sub);
      ScatterGather(g, gs[t]);
      assert MapFrom(g, n, gs, CheckConsistency, t, result) == MapFrom(g, n, gs, CheckConsistency, t + 1, result && ok);
      GatherView(g, gs[t]);
      assert ok <==> GroupConsistent(PickSets(View(g), gs[t]));
      MapConsistency(g, n, gs, t + 1, result && ok);
      ConsistentFromStep(View(g), gs, t);
    }
  }

  // ---------------------------------------------------------------------
  // grid_consistency and grid_solved
  // ---------------------------------------------------------------------

  /** `grid_consistency`. */
  function GridConsistency(g: Grid, n: nat): (r: bool)
    requires ValidSize(n) && |g| == n * n
    ensures r <==> GridConsistent(View(g), n)
  {
    GroupsOK(n);
    MapConsistency(g, n, Groups(n), 0, true);
    SubgridMap(g, n, CheckConsistency).stable
  }

  /** `grid_solved`, row by row: whether every cell from `c` on is a singleton. */
  function SolvedFrom(g: Grid, c: nat): (r: bool)
    requires c <= |g|
    ensures r <==> forall d | c <= d < |g| :: |View(g)[d]| == 1
    decreases |g| - c
  {
    if c == |g| then true
    else
      ViewAt(g, c);
      IsSingleton(g[c]) && SolvedFrom(g, c + 1)
  }

  function GridSolved(g: Grid): (r: bool)
    ensures r <==> AllSingletons(View(g))
  {
    SolvedFrom(g, 0)
  }

  /** A grid that a solution fits is consistent. */
  lemma ConsistentIfAdmits(n: nat, G: seq<set<nat>>, sol: seq<nat>)
    requires |G| == n * n && Admits(n, G, sol)
    ensures GridConsistent(G, n)
  {
    GroupsOK(n);
    forall t | 0 <= t < |Groups(n)| ensures GroupConsistent(PickSets(G, Groups(n)[t])) {
      var grp := Groups(n)[t];
      PickFits(n, G, grp, sol);
      ConsistentIfFilled(PickSets(G, grp), PickVals(sol, grp));
    }
  }

  /** In a consistent grid every candidate lies below the side: each cell is in a row, and a
      consistent row holds only colours below the side. */
  lemma WithinIfConsistent(n: nat, G: seq<set<nat>>)
    requires |G| == n * n && GridConsistent(G, n)
    ensures GridWithin(G, n)
  {
    forall c | 0 <= c < |G| ensures G[c] <= RangeSet(n) {
      ValidSizeBounds(n);
      DivBelow(c, n, n);
      var i, j := c / n, c % n;
      assert Cell(n, i, j) == c;
      CellInItsLines(n, i, j);
      var S := PickSets(G, Groups(n)[i]);
      assert Groups(n)[i] == Row(n, i);
      assert S[j] == G[c];
      assert G[c] <= Union(S);
    }
  }

  /** A consistent grid of singletons spells out a solution, which it admits ... */
  lemma SolvedIsSolution(n: nat, G: seq<set<nat>>)
    requires |G| == n * n && AllSingletons(G) && GridConsistent(G, n)
    ensures Admits(n, G, Values(G))
  {
    var sol := Values(G);
    WithinIfConsistent(n, G);
    GroupsOK(n);
    forall t | 0 <= t < |Groups(n)| ensures Filling(PickVals(sol, Groups(n)[t])) {
      var grp := Groups(n)[t];
      var S := PickSets(G, grp);
      assert Values(S) == PickVals(sol, grp);
      FilledIfConsistent(S);
    }
  }

  /** ... and it admits no other. */
  lemma SolvedUnique(G: seq<set<nat>>, s1: seq<nat>, s2: seq<nat>)
    ensures AllSingletons(G) && Fits(G, s1) && Fits(G, s2) ==> s1 == s2
  {
    if AllSingletons(G) && Fits(G, s1) && Fits(G, s2) {
      forall c | 0 <= c < |G| ensures s1[c] == s2[c] {
        OneMember(G[c], s1[c]);
      }
    }
  }

  // ---------------------------------------------------------------------
  // grid_heuristics
  // ---------------------------------------------------------------------

  /** The values `grid_heuristics` returns: `SOLVED`, `CONSISTENT` and `UNCONSISTENT`. */
  datatype Status = Solved | Consistent | Unconsistent

  /** The loop of `grid_heuristics`: sweep until a sweep changes nothing. It terminates because
      every sweep that changes the grid removes at least one candidate. */
  function Fixpoint(g: Grid, n: nat): (h: Grid)
    requires ValidSize(n) && |g| == n * n
    ensures |h| == n * n
    ensures Shrinks(View(g), View(h))
    ensures SubgridMap(h, n, RunHeuristics).cells == h
    ensures forall sol | Admits(n, View(g), sol) :: Admits(n, View(h), sol)
    decreases SumCard(View(g))
  {
    var p := SubgridMap(g, n, RunHeuristics);
    Sweep(g, n);
    if p.stable then g
    else
      ViewChanged(g, p.cells);
      ShrinksSum(View(g), View(p.cells));
      var h := Fixpoint(p.cells, n);
      ShrinksTrans(View(g), View(p.cells), View(h));
      h
  }

  /** `grid_heuristics`: the grid at the fixpoint, and what it amounts to. */
  function GridHeuristics(g: Grid, n: nat): (r: (Status, Grid))
    requires ValidSize(n) && |g| == n * n
    ensures |r.1| == n * n
    ensures Shrinks(View(g), View(r.1))
    ensures SubgridMap(r.1, n, RunHeuristics).cells == r.1
    ensures r.0 == Solved <==> GridConsistent(View(r.1), n) && AllSingletons(View(r.1))
    ensures r.0 == Unconsistent <==> !GridConsistent(View(r.1), n)
    ensures forall sol | Admits(n, View(g), sol) :: Admits(n, View(r.1), sol)
  {
    var h := Fixpoint(g, n);
    var status :=
      if GridConsistency(h, n) then (if GridSolved(h) then Solved else Consistent)
      else Unconsistent;
    (status, h)
  }

  // ---------------------------------------------------------------------
  // grid_choice
  // ---------------------------------------------------------------------

  /** The number of candidates of every cell, as `grid_choice` reads them. */
  function Cards(g: Grid): (K: seq<nat>)
    ensures |K| == |g|
    ensures forall c | 0 <= c < |g| :: K[c] == |View(g)[c]| && K[c] <= MaxColors
  {
    CardsView(g);
    seq(|g|, c requires 0 <= c < |g| => Cardinality(g[c]))
  }

  lemma CardsView(g: Grid)
    ensures forall c | 0 <= c < |g| :: Cardinality(g[c]) == |View(g)[c]|
  {
    forall c | 0 <= c < |g| ensures Cardinality(g[c]) == |View(g)[c]| {
      ViewAt(g, c);
    }
  }

  /** The scan of `grid_choice` from cell `c` on, given the best cell `best` found before `c` and
      its number of candidates `min`: the first cell of least cardinality above one. */
  function ChoiceFrom(K: seq<nat>, c: nat, best: int, min: nat): (r: int)
    requires c <= |K|
    decreases |K| - c
  {
    if c == |K| then best
    else if 1 < K[c] < min then ChoiceFrom(K, c + 1, c, K[c])
    else ChoiceFrom(K, c + 1, best, min)
  }

  /** The cell `grid_choice` settles on: none when no cell has two candidates or more, otherwise
      one that has, with no fewer candidates than any other such cell and strictly fewer than
      every such cell before it. */
  ghost predicate IsChoice(K: seq<nat>, r: int)
  {
    && (r == -1 <==> forall d | 0 <= d < |K| :: K[d] <= 1)
    && (r != -1 ==> 0 <= r < |K| && K[r] > 1)
    && (r != -1 ==> forall d | 0 <= d < |K| && K[d] > 1 :: K[r] <= K[d])
    && (r != -1 ==> forall d | 0 <= d < r && K[d] > 1 :: K[r] < K[d])
  }

  /** `grid_choice`: the flat index `x * n + y` of the chosen cell, or -1. */
  function GridChoice(g: Grid): (r: int)
    ensures IsChoice(Cards(g), r)
  {
    var K := Cards(g);
    ChoiceSpec(K, 0, -1, MaxColors + 1);
    ChoiceFrom(K, 0, -1, MaxColors + 1)
  }

  /** What the scan from `c` returns, given what the scan up to `c` found. */
  lemma {:induction false} ChoiceSpec(K: seq<nat>, c: nat, best: int, min: nat)
    requires c <= |K| && min <= MaxColors + 1
    requires forall d | 0 <= d < |K| :: K[d] <= MaxColors
    requires best == -1 ==> min == MaxColors + 1 && forall d | 0 <= d < c :: K[d] <= 1
    requires best != -1 ==> 0 <= best < c && K[best] == min > 1
    requires forall d | 0 <= d < c && K[d] > 1 :: min <= K[d]
    requires best != -1 ==> forall d | 0 <= d < best && K[d] > 1 :: min < K[d]
    ensures IsChoice(K, ChoiceFrom(K, c, best, min))
    decreases |K| - c
  {
    if c < |K| {
      if 1 < K[c] < min {
        ChoiceSpec(K, c + 1, c, K[c]);
      } else {
        ChoiceSpec(K, c + 1, best, min);
      }
    }
  }

  /** A consistent grid that is not solved has a cell to branch on. */
  lemma ChoiceExists(g: Grid, n: nat)
    requires ValidSize(n) && |g| == n * n
    requires GridConsistent(View(g), n) && !AllSingletons(View(g))
    ensures GridChoice(g) != -1
  {
    var c :| 0 <= c < |g| && |View(g)[c]| != 1;
    ViewAt(g, c);
    DivBelow(c, n, n);
    var i, j := c / n, c % n;
    assert Cell(n, i, j) == c;
    CellInItsLines(n, i, j);
    var S := PickSets(View(g), Groups(n)[i]);
    assert Groups(n)[i] == Row(n, i);
    assert S[j] == View(g)[c];
    assert Cards(g)[c] > 1;
  }
}
