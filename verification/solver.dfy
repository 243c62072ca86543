/**
 * `grid_solver`: propagation followed by backtracking on a cell of fewest
 * candidates.
 *
 * The C function works on the grid in place and returns the number of
 * solutions it found; here `Solve` returns that number together with the grid
 * the C code leaves behind. The two global flags it reads become a `Mode`:
 * `strict` goes on after a first solution to find out whether there is a
 * second one, and `randomized` (the generator's `generate` flag) tries the
 * candidates of the chosen cell in random order. `rand()` is the function
 * `rnd` applied to the number of calls made so far, which `Solve` threads
 * through the search.
 *
 * What the count means, for a grid that holds no colour at or above its side:
 * it is at least one exactly when the grid allows a solution, and then the
 * grid left behind is one; without `strict` it is at most one; with `strict`
 * it is at least two exactly when the grid allows two different solutions.
 */
module Solver {
  import opened PSets
  import opened Grids
  import opened Subgrids
  import opened Heuristics
  import opened Propagation

  /** The flags `strict` and `generate` of the program. */
  datatype Mode = Mode(strict: bool, randomized: bool)

  /** The number of solutions found, the grid left behind, and the number of `rand()` calls made. */
  datatype Outcome = Outcome(count: nat, grid: Grid, next: nat)

  datatype Option<T> = None | Some(value: T)

  // ---------------------------------------------------------------------
  // Solutions and refinement
  // ---------------------------------------------------------------------

  /** `sol` is a solution of the game that the candidate grid `G` allows. */
  ghost predicate Allows(n: nat, G: seq<set<nat>>, sol: seq<nat>)
  {
    IsSolution(n, sol) && Fits(G, sol)
  }

  /** `F` keeps, in every cell, only candidates that `G` has. */
  ghost predicate Refines(G: seq<set<nat>>, F: seq<set<nat>>)
  {
    |F| == |G| && forall c | 0 <= c < |G| :: F[c] <= G[c]
  }

  /** `F` is a solved grid that refines `G`. */
  ghost predicate Found(n: nat, G: seq<set<nat>>, F: seq<set<nat>>)
  {
    Refines(G, F) && AllSingletons(F) && GridConsistent(F, n)
  }

  lemma RefinesTrans(G: seq<set<nat>>, H: seq<set<nat>>, F: seq<set<nat>>)
    requires Refines(G, H) && Refines(H, F)
    ensures Refines(G, F)
  {
  }

  lemma ShrinksRefines(G: seq<set<nat>>, H: seq<set<nat>>)
    requires Shrinks(G, H)
    ensures Refines(G, H)
  {
  }

  /** A solved grid that refines `G` spells out a solution `G` allows. */
  lemma FoundAllows(n: nat, G: seq<set<nat>>, F: seq<set<nat>>)
    requires |G| == n * n && Found(n, G, F)
    ensures Allows(n, G, Values(F))
  {
    SolvedIsSolution(n, F);
  }

  /** The colour sets of a grid after one cell is overwritten. */
  lemma ViewUpdate(h: Grid, c: nat, p: PSet)
    requires c < |h|
    ensures View(h[c := p]) == View(h)[c := Elems(p)]
  {
    var v := View(h[c := p]);
    forall d | 0 <= d < |h| ensures v[d] == View(h)[c := Elems(p)][d] {
      ViewAt(h[c := p], d);
      ViewAt(h, d);
    }
  }

  /** Fixing a cell with several candidates to one of them removes candidates. */
  lemma FixShrinks(h: Grid, c: nat, p: PSet)
    requires c < |h| && |View(h)[c]| > 1 && |Elems(p)| == 1 && Elems(p) <= View(h)[c]
    ensures Shrinks(View(h), View(h[c := p]))
    ensures SumCard(View(h[c := p])) < SumCard(View(h))
  {
    ViewUpdate(h, c, p);
    assert View(h[c := p])[c] != View(h)[c];
    ShrinksSum(View(h), View(h[c := p]));
  }

  /** Fixing a cell to the colour a solution gives it keeps the solution. */
  lemma FixAdmits(n: nat, h: Grid, c: nat, p: PSet, sol: seq<nat>)
    requires c < |h| && Admits(n, View(h), sol) && sol[c] in Elems(p) && Elems(p) <= View(h)[c]
    ensures Admits(n, View(h[c := p]), sol)
  {
    ViewUpdate(h, c, p);
  }

  // ---------------------------------------------------------------------
  // grid_solver
  // ---------------------------------------------------------------------

  /** The candidate the loop of `grid_solver` tries next: in generate mode the `k`-th lowest of
      those left, for `k` drawn from `rand()`; otherwise the lowest. */
  function PickNext(chosen: PSet, randomized: bool, draw: nat): (left: PSet)
    requires Elems(chosen) != {}
    ensures |Elems(left)| == 1 && Elems(left) <= Elems(chosen)
    ensures !randomized ==> Elems(left) == {MinOf(Elems(chosen))}
  {
    if randomized then NLeftmost(chosen, draw % Cardinality(chosen) + 1)
    else Leftmost(chosen)
  }

  /** `grid_solver`. */
  function Solve(g: Grid, n: nat, mode: Mode, rnd: nat -> nat, next: nat): (o: Outcome)
    requires ValidSize(n) && |g| == n * n
    ensures |o.grid| == n * n
    decreases SumCard(View(g)), 1, 0, 0
  {
    if !GridConsistency(g, n) then Outcome(0, g, next)
    else
      var (status, h) := GridHeuristics(g, n);
      if status == Solved then Outcome(1, h, next)
      else if status == Unconsistent then Outcome(0, h, next)
      else
        ShrinksSum(View(g), View(h));
        ChoiceExists(h, n);
        var c := GridChoice(h);
        LoopStart(h, n, c);
        Branch(h, n, mode, rnd, c, h[c], Cardinality(h[c]), 0, 0, None, next)
  }

  /** The loop of `grid_solver` over the candidates of cell `c`, at iteration `i` of `card`:
      `chosen` holds the candidates not tried yet, `result` the solutions counted so far, and
      `stored` the first solution kept in strict mode. An iteration fixes the cell to the next
      candidate and solves the copy; `After` is the rest of the iteration. */
  function Branch(h: Grid, n: nat, mode: Mode, rnd: nat -> nat, c: nat, chosen: PSet, card: nat, i: nat,
                  result: nat, stored: Option<Grid>, next: nat): (o: Outcome)
    requires Loop(h, n, c, chosen, card, i)
    requires Kept(n, stored)
    ensures |o.grid| == n * n
    decreases SumCard(View(h)), 0, card - i, 1
  {
    if i == card then Outcome(result, if stored.Some? then stored.value else h, next)
    else
      var left := PickNext(chosen, mode.randomized, rnd(next));
      FixShrinks(h, c, left);
      After(h, n, mode, rnd, c, chosen, card, i, result, stored, left,
            Solve(h[c := left], n, mode, rnd, if mode.randomized then next + 1 else next))
  }

  /** The end of an iteration, once the copy with cell `c` fixed to `left` has given outcome `o`:
      a solution is added to the count and, unless strict mode still waits for a second one,
      ends the search; otherwise `left` is removed from the candidates and the loop goes on. */
  function After(h: Grid, n: nat, mode: Mode, rnd: nat -> nat, c: nat, chosen: PSet, card: nat, i: nat,
                 result: nat, stored: Option<Grid>, left: PSet, o: Outcome): (r: Outcome)
    requires Loop(h, n, c, chosen, card, i) && i < card
    requires Kept(n, stored)
    requires Picked(chosen, left) && |o.grid| == n * n
    ensures |r.grid| == n * n
    decreases SumCard(View(h)), 0, card - i, 0
  {
    LoopNext(h, n, c, chosen, card, i, left);
    KeepFirst(n, stored, o.grid);
    if o.count >= 1 then
      if mode.strict && result + o.count <= 1 then
        Branch(h, n, mode, rnd, c, Subtract(chosen, left), card, i + 1, result + o.count,
               if stored.None? then Some(o.grid) else stored, o.next)
      else Outcome(result + o.count, o.grid, o.next)
    else Branch(h, n, mode, rnd, c, Subtract(chosen, left), card, i + 1, result, stored, o.next)
  }

  /** The state of the loop over the candidates of cell `c`: `chosen` holds the `card - i`
      candidates not tried yet, all of them candidates of the cell. */
  ghost predicate Loop(h: Grid, n: nat, c: nat, chosen: PSet, card: nat, i: nat)
  {
    && ValidSize(n) && |h| == n * n && c < |h| && |View(h)[c]| > 1
    && i <= card && i + |Elems(chosen)| == card && Elems(chosen) <= View(h)[c]
  }

  /** `left` is one of the candidates `chosen`. */
  ghost predicate Picked(chosen: PSet, left: PSet)
  {
    |Elems(left)| == 1 && Elems(left) <= Elems(chosen)
  }

  /** A grid kept in strict mode has the size of the game. */
  ghost predicate Kept(n: nat, stored: Option<Grid>)
  {
    stored.Some? ==> |stored.value| == n * n
  }

  /** The loop starts on the cell `grid_choice` picks, with all its candidates left. */
  lemma LoopStart(h: Grid, n: nat, c: nat)
    requires ValidSize(n) && |h| == n * n && c == GridChoice(h)
    ensures Loop(h, n, c, h[c], Cardinality(h[c]), 0)
  {
    ViewAt(h, c);
  }

  /** Removing the candidate just tried moves the loop to its next iteration. */
  lemma LoopNext(h: Grid, n: nat, c: nat, chosen: PSet, card: nat, i: nat, left: PSet)
    requires Loop(h, n, c, chosen, card, i) && i < card
    requires Picked(chosen, left)
    ensures Loop(h, n, c, Subtract(chosen, left), card, i + 1)
    ensures Elems(Subtract(chosen, left)) <= Elems(chosen)
  {
    RestCard(chosen, left);
  }

  /** A solution kept at cell `c` on a colour no longer among the candidates stays apart from
      those left after one more is tried. */
  lemma StoredApart(h: Grid, n: nat, c: nat, chosen: PSet, card: nat, i: nat, stored: Option<Grid>, left: PSet)
    requires Loop(h, n, c, chosen, card, i) && Kept(n, stored)
    requires stored.Some? ==> View(stored.value)[c] !! Elems(chosen)
    ensures stored.Some? ==> View(stored.value)[c] !! Elems(Subtract(chosen, left))
  {
  }

  /** A grid kept after the first solution has the size of the game. */
  lemma KeepFirst(n: nat, stored: Option<Grid>, g: Grid)
    requires Kept(n, stored) && |g| == n * n
    ensures Kept(n, if stored.None? then Some(g) else stored)
  {
  }

  /** Removing the candidate just tried leaves one fewer. */
  lemma RestCard(chosen: PSet, left: PSet)
    requires Picked(chosen, left)
    ensures |Elems(Subtract(chosen, left))| + 1 == |Elems(chosen)|
    ensures Elems(Subtract(chosen, left)) <= Elems(chosen)
  {
    var x :| x in Elems(left);
    OneMember(Elems(left), x);
    assert Elems(chosen) == Elems(Subtract(chosen, left)) + {x};
  }

  // ---------------------------------------------------------------------
  // One step of the loop, case by case
  //
  // The lemmas `After…Fail` and `After…Continue` below only chain these equations with the
  // induction hypothesis for the next iteration. They start with `hide *`, so that the verifier
  // does not unfold the candidate words of the loop down to their bits.
  // ---------------------------------------------------------------------

  lemma BranchStep(h: Grid, n: nat, mode: Mode, rnd: nat -> nat, c: nat, chosen: PSet, card: nat, i: nat,
                   result: nat, stored: Option<Grid>, next: nat, left: PSet, o: Outcome)
    requires Loop(h, n, c, chosen, card, i) && i < card
    requires Kept(n, stored)
    requires left == PickNext(chosen, mode.randomized, rnd(next))
    requires o == Solve(h[c := left], n, mode, rnd, if mode.randomized then next + 1 else next)
    ensures Branch(h, n, mode, rnd, c, chosen, card, i, result, stored, next) ==
            After(h, n, mode, rnd, c, chosen, card, i, result, stored, left, o)
  {
  }

  lemma AfterFail(h: Grid, n: nat, mode: Mode, rnd: nat -> nat, c: nat, chosen: PSet, card: nat, i: nat,
                  result: nat, stored: Option<Grid>, left: PSet, o: Outcome)
    requires Loop(h, n, c, chosen, card, i) && i < card
    requires Kept(n, stored)
    requires Picked(chosen, left) && |o.grid| == n * n
    requires o.count == 0
    ensures After(h, n, mode, rnd, c, chosen, card, i, result, stored, left, o) ==
            Branch(h, n, mode, rnd, c, Subtract(chosen, left), card, i + 1, result, stored, o.next)
  {
  }

  lemma AfterStop(h: Grid, n: nat, mode: Mode, rnd: nat -> nat, c: nat, chosen: PSet, card: nat, i: nat,
                  result: nat, stored: Option<Grid>, left: PSet, o: Outcome)
    requires Loop(h, n, c, chosen, card, i) && i < card
    requires Kept(n, stored)
    requires Picked(chosen, left) && |o.grid| == n * n
    requires o.count >= 1 && !(mode.strict && result + o.count <= 1)
    ensures After(h, n, mode, rnd, c, chosen, card, i, result, stored, left, o) ==
            Outcome(result + o.count, o.grid, o.next)
  {
  }

  /** In strict mode the first solution is kept and the loop goes on; nothing was counted or kept
      before it. */
  lemma AfterContinue(h: Grid, n: nat, mode: Mode, rnd: nat -> nat, c: nat, chosen: PSet, card: nat, i: nat,
                      result: nat, stored: Option<Grid>, left: PSet, o: Outcome)
    requires Loop(h, n, c, chosen, card, i) && i < card
    requires Kept(n, stored)
    requires Picked(chosen, left) && |o.grid| == n * n
    requires o.count >= 1 && mode.strict && result + o.count <= 1
    requires result == 0 ==> stored.None?
    ensures After(h, n, mode, rnd, c, chosen, card, i, result, stored, left, o) ==
            Branch(h, n, mode, rnd, c, Subtract(chosen, left), card, i + 1, 1, Some(o.grid), o.next)
  {
    LoopNext(h, n, c, chosen, card, i, left);
    var kept := if stored.None? then Some(o.grid) else stored;
    assert result + o.count == 1 && kept == Some(o.grid);
    assert After(h, n, mode, rnd, c, chosen, card, i, result, stored, left, o) ==
           Branch(h, n, mode, rnd, c, Subtract(chosen, left), card, i + 1, result + o.count, kept, o.next);
  }

  // ---------------------------------------------------------------------
  // Soundness: what is counted is a solution
  // ---------------------------------------------------------------------

  /** A positive count leaves behind a solved grid that refines the input. */
  lemma {:induction false} SolveSound(g: Grid, n: nat, mode: Mode, rnd: nat -> nat, next: nat)
    requires ValidSize(n) && |g| == n * n
    ensures var o := Solve(g, n, mode, rnd, next);
            o.count >= 1 ==> Found(n, View(g), View(o.grid))
    decreases SumCard(View(g)), 1, 0, 0
  {
    if GridConsistency(g, n) {
      var (status, h) := GridHeuristics(g, n);
      ShrinksRefines(View(g), View(h));
      if status == Consistent {
        ShrinksSum(View(g), View(h));
        ChoiceExists(h, n);
        var c := GridChoice(h);
        LoopStart(h, n, c);
        var o := Branch(h, n, mode, rnd, c, h[c], Cardinality(h[c]), 0, 0, None, next);
        BranchSound(h, n, mode, rnd, c, h[c], Cardinality(h[c]), 0, 0, None, next);
        if o.count >= 1 {
          RefinesTrans(View(g), View(h), View(o.grid));
        }
      }
    }
  }

  lemma {:induction false} BranchSound(h: Grid, n: nat, mode: Mode, rnd: nat -> nat, c: nat, chosen: PSet, card: nat,
                                       i: nat, result: nat, stored: Option<Grid>, next: nat)
    requires Loop(h, n, c, chosen, card, i)
    requires Kept(n, stored) && (stored.Some? ==> Found(n, View(h), View(stored.value)))
    requires stored.None? <==> result == 0
    ensures var o := Branch(h, n, mode, rnd, c, chosen, card, i, result, stored, next);
            o.count >= 1 ==> Found(n, View(h), View(o.grid))
    decreases SumCard(View(h)), 0, card - i, 1
  {
    if i < card {
      var left := PickNext(chosen, mode.randomized, rnd(next));
      var child := h[c := left];
      var after := if mode.randomized then next + 1 else next;
      FixShrinks(h, c, left);
      var o := Solve(child, n, mode, rnd, after);
      BranchStep(h, n, mode, rnd, c, chosen, card, i, result, stored, next, left, o);
      SolveSound(child, n, mode, rnd, after);
      ShrinksRefines(View(h), View(child));
      if o.count >= 1 {
        RefinesTrans(View(h), View(child), View(o.grid));
      }
      LoopNext(h, n, c, chosen, card, i, left);
      if o.count == 0 {
        AfterSoundFail(h, n, mode, rnd, c, chosen, card, i, result, stored, left, o);
      } else if mode.strict && result + o.count <= 1 {
        AfterSoundContinue(h, n, mode, rnd, c, chosen, card, i, result, stored, left, o);
      } else {
        AfterStop(h, n, mode, rnd, c, chosen, card, i, result, stored, left, o);
      }
    }
  }

  lemma {:induction false} AfterSoundFail(h: Grid, n: nat, mode: Mode, rnd: nat -> nat, c: nat, chosen: PSet, card: nat,
                                      i: nat, result: nat, stored: Option<Grid>, left: PSet, o: Outcome)
    requires Loop(h, n, c, chosen, card, i) && i < card
    requires Kept(n, stored) && (stored.Some? ==> Found(n, View(h), View(stored.value)))
    requires stored.None? <==> result == 0
    requires Picked(chosen, left) && |o.grid| == n * n
    requires o.count == 0
    ensures var r := After(h, n, mode, rnd, c, chosen, card, i, result, stored, left, o);
            r.count >= 1 ==> Found(n, View(h), View(r.grid))
    decreases SumCard(View(h)), 0, card - i, 0
  {
    hide *;
    LoopNext(h, n, c, chosen, card, i, left);
    AfterFail(h, n, mode, rnd, c, chosen, card, i, result, stored, left, o);
    BranchSound(h, n, mode, rnd, c, Subtract(chosen, left), card, i + 1, result, stored, o.next);
  }

  lemma {:induction false} AfterSoundContinue(h: Grid, n: nat, mode: Mode, rnd: nat -> nat, c: nat, chosen: PSet, card: nat,
                                      i: nat, result: nat, stored: Option<Grid>, left: PSet, o: Outcome)
    requires Loop(h, n, c, chosen, card, i) && i < card
    requires Kept(n, stored) && (stored.Some? ==> Found(n, View(h), View(stored.value)))
    requires stored.None? <==> result == 0
    requires Picked(chosen, left) && |o.grid| == n * n
    requires o.count >= 1 ==> Found(n, View(h), View(o.grid))
    requires o.count >= 1 && mode.strict && result + o.count <= 1
    ensures var r := After(h, n, mode, rnd, c, chosen, card, i, result, stored, left, o);
            r.count >= 1 ==> Found(n, View(h), View(r.grid))
    decreases SumCard(View(h)), 0, card - i, 0
  {
    hide *;
    LoopNext(h, n, c, chosen, card, i, left);
    AfterContinue(h, n, mode, rnd, c, chosen, card, i, result, stored, left, o);
    BranchSound(h, n, mode, rnd, c, Subtract(chosen, left), card, i + 1, 1, Some(o.grid), o.next);
  }

  // ---------------------------------------------------------------------
  // Completeness: a solution that exists is found
  // ---------------------------------------------------------------------

  /** A grid that admits a solution gets a positive count, in every mode. */
  lemma {:induction false} SolveFinds(g: Grid, n: nat, mode: Mode, rnd: nat -> nat, next: nat, sol: seq<nat>)
    requires ValidSize(n) && |g| == n * n && Admits(n, View(g), sol)
    ensures Solve(g, n, mode, rnd, next).count >= 1
    decreases SumCard(View(g)), 1, 0, 0
  {
    ConsistentIfAdmits(n, View(g), sol);
    var (status, h) := GridHeuristics(g, n);
    ConsistentIfAdmits(n, View(h), sol);
    if status == Consistent {
      ShrinksSum(View(g), View(h));
      ChoiceExists(h, n);
      var c := GridChoice(h);
      LoopStart(h, n, c);
      ViewAt(h, c);
      BranchFinds(h, n, mode, rnd, c, h[c], Cardinality(h[c]), 0, 0, None, next, sol);
    }
  }

  lemma {:induction false} BranchFinds(h: Grid, n: nat, mode: Mode, rnd: nat -> nat, c: nat, chosen: PSet, card: nat,
                                       i: nat, result: nat, stored: Option<Grid>, next: nat, sol: seq<nat>)
    requires Loop(h, n, c, chosen, card, i)
    requires Kept(n, stored)
    requires stored.None? <==> result == 0
    requires Admits(n, View(h), sol)
    requires result >= 1 || sol[c] in Elems(chosen)
    ensures Branch(h, n, mode, rnd, c, chosen, card, i, result, stored, next).count >= 1
    decreases SumCard(View(h)), 0, card - i, 1
  {
    if i < card {
      var left := PickNext(chosen, mode.randomized, rnd(next));
      var child := h[c := left];
      var after := if mode.randomized then next + 1 else next;
      FixShrinks(h, c, left);
      var o := Solve(child, n, mode, rnd, after);
      BranchStep(h, n, mode, rnd, c, chosen, card, i, result, stored, next, left, o);
      if sol[c] in Elems(left) {
        FixAdmits(n, h, c, left, sol);
        SolveFinds(child, n, mode, rnd, after, sol);
      }
      LoopNext(h, n, c, chosen, card, i, left);
      if o.count == 0 {
        AfterFindsFail(h, n, mode, rnd, c, chosen, card, i, result, stored, left, o, sol);
      } else if mode.strict && result + o.count <= 1 {
        AfterFindsContinue(h, n, mode, rnd, c, chosen, card, i, result, stored, left, o, sol);
      } else {
        AfterStop(h, n, mode, rnd, c, chosen, card, i, result, stored, left, o);
      }
    }
  }

  lemma {:induction false} AfterFindsFail(h: Grid, n: nat, mode: Mode, rnd: nat -> nat, c: nat, chosen: PSet, card: nat,
                                      i: nat, result: nat, stored: Option<Grid>, left: PSet, o: Outcome,
                                      sol: seq<nat>)
    requires Loop(h, n, c, chosen, card, i) && i < card
    requires Kept(n, stored)
    requires stored.None? <==> result == 0
    requires Picked(chosen, left) && |o.grid| == n * n
    requires Admits(n, View(h), sol)
    requires result >= 1 || sol[c] in Elems(chosen)
    requires sol[c] in Elems(left) ==> o.count >= 1
    requires o.count == 0
    ensures After(h, n, mode, rnd, c, chosen, card, i, result, stored, left, o).count >= 1
    decreases SumCard(View(h)), 0, card - i, 0
  {
    hide *;
    LoopNext(h, n, c, chosen, card, i, left);
    AfterFail(h, n, mode, rnd, c, chosen, card, i, result, stored, left, o);
    BranchFinds(h, n, mode, rnd, c, Subtract(chosen, left), card, i + 1, result, stored, o.next, sol);
  }

  lemma {:induction false} AfterFindsContinue(h: Grid, n: nat, mode: Mode, rnd: nat -> nat, c: nat, chosen: PSet, card: nat,
                                      i: nat, result: nat, stored: Option<Grid>, left: PSet, o: Outcome,
                                      sol: seq<nat>)
    requires Loop(h, n, c, chosen, card, i) && i < card
    requires Kept(n, stored)
    requires stored.None? <==> result == 0
    requires Picked(chosen, left) && |o.grid| == n * n
    requires Admits(n, View(h), sol)
    requires result >= 1 || sol[c] in Elems(chosen)
    requires sol[c] in Elems(left) ==> o.count >= 1
    requires o.count >= 1 && mode.strict && result + o.count <= 1
    ensures After(h, n, mode, rnd, c, chosen, card, i, result, stored, left, o).count >= 1
    decreases SumCard(View(h)), 0, card - i, 0
  {
    hide *;
    LoopNext(h, n, c, chosen, card, i, left);
    AfterContinue(h, n, mode, rnd, c, chosen, card, i, result, stored, left, o);
    BranchFinds(h, n, mode, rnd, c, Subtract(chosen, left), card, i + 1, 1, Some(o.grid), o.next, sol);
  }

  // ---------------------------------------------------------------------
  // Without strict mode the search stops at the first solution
  // ---------------------------------------------------------------------

  lemma {:induction false} SolveAtMostOne(g: Grid, n: nat, mode: Mode, rnd: nat -> nat, next: nat)
    requires ValidSize(n) && |g| == n * n && !mode.strict
    ensures Solve(g, n, mode, rnd, next).count <= 1
    decreases SumCard(View(g)), 1, 0, 0
  {
    if GridConsistency(g, n) {
      var (status, h) := GridHeuristics(g, n);
      if status == Consistent {
        ShrinksSum(View(g), View(h));
        ChoiceExists(h, n);
        var c := GridChoice(h);
        LoopStart(h, n, c);
        BranchAtMostOne(h, n, mode, rnd, c, h[c], Cardinality(h[c]), 0, next);
      }
    }
  }

  lemma {:induction false} BranchAtMostOne(h: Grid, n: nat, mode: Mode, rnd: nat -> nat, c: nat, chosen: PSet,
                                           card: nat, i: nat, next: nat)
    requires Loop(h, n, c, chosen, card, i)
    requires !mode.strict
    ensures Branch(h, n, mode, rnd, c, chosen, card, i, 0, None, next).count <= 1
    decreases SumCard(View(h)), 0, card - i, 1
  {
    if i < card {
      var left := PickNext(chosen, mode.randomized, rnd(next));
      var child := h[c := left];
      var after := if mode.randomized then next + 1 else next;
      FixShrinks(h, c, left);
      var o := Solve(child, n, mode, rnd, after);
      BranchStep(h, n, mode, rnd, c, chosen, card, i, 0, None, next, left, o);
      SolveAtMostOne(child, n, mode, rnd, after);
      LoopNext(h, n, c, chosen, card, i, left);
      if o.count == 0 {
        AfterAtMostOneFail(h, n, mode, rnd, c, chosen, card, i, left, o);
      } else {
        AfterStop(h, n, mode, rnd, c, chosen, card, i, 0, None, left, o);
      }
    }
  }

  lemma {:induction false} AfterAtMostOneFail(h: Grid, n: nat, mode: Mode, rnd: nat -> nat, c: nat, chosen: PSet,
                                          card: nat, i: nat, left: PSet, o: Outcome)
    requires Loop(h, n, c, chosen, card, i) && i < card
    requires Picked(chosen, left) && |o.grid| == n * n
    requires !mode.strict && o.count <= 1
    requires o.count == 0
    ensures After(h, n, mode, rnd, c, chosen, card, i, 0, None, left, o).count <= 1
    decreases SumCard(View(h)), 0, card - i, 0
  {
    hide *;
    LoopNext(h, n, c, chosen, card, i, left);
    AfterFail(h, n, mode, rnd, c, chosen, card, i, 0, None, left, o);
    BranchAtMostOne(h, n, mode, rnd, c, Subtract(chosen, left), card, i + 1, o.next);
  }

  // ---------------------------------------------------------------------
  // Strict mode: a count of two or more means two solutions, and conversely
  // ---------------------------------------------------------------------

  /** The grid allows two different solutions. */
  ghost predicate TwoSolutions(n: nat, G: seq<set<nat>>)
  {
    exists s1, s2 :: Allows(n, G, s1) && Allows(n, G, s2) && s1 != s2
  }

  /** A solution a refinement allows is allowed by the coarser grid. */
  lemma AllowsCoarser(n: nat, G: seq<set<nat>>, F: seq<set<nat>>, sol: seq<nat>)
    requires Refines(G, F) && Allows(n, F, sol)
    ensures Allows(n, G, sol)
  {
  }

  lemma TwoCoarser(n: nat, G: seq<set<nat>>, F: seq<set<nat>>)
    requires Refines(G, F) && TwoSolutions(n, F)
    ensures TwoSolutions(n, G)
  {
    var s1, s2 :| Allows(n, F, s1) && Allows(n, F, s2) && s1 != s2;
    AllowsCoarser(n, G, F, s1);
    AllowsCoarser(n, G, F, s2);
  }

  /** Two solved grids that differ on a cell give two solutions. */
  lemma TwoFound(n: nat, G: seq<set<nat>>, F1: seq<set<nat>>, F2: seq<set<nat>>, c: nat)
    requires |G| == n * n && Found(n, G, F1) && Found(n, G, F2)
    requires c < |G| && F1[c] !! F2[c]
    ensures TwoSolutions(n, G)
  {
    FoundAllows(n, G, F1);
    FoundAllows(n, G, F2);
    assert Values(F1)[c] in F1[c];
    assert Values(F2)[c] in F2[c];
  }

  /** A count of two or more is backed by two different solutions. */
  lemma {:induction false} SolveTwoSound(g: Grid, n: nat, mode: Mode, rnd: nat -> nat, next: nat)
    requires ValidSize(n) && |g| == n * n
    ensures Solve(g, n, mode, rnd, next).count >= 2 ==> TwoSolutions(n, View(g))
    decreases SumCard(View(g)), 1, 0, 0
  {
    if GridConsistency(g, n) {
      var (status, h) := GridHeuristics(g, n);
      ShrinksRefines(View(g), View(h));
      if status == Consistent {
        ShrinksSum(View(g), View(h));
        ChoiceExists(h, n);
        var c := GridChoice(h);
        LoopStart(h, n, c);
        var o := Branch(h, n, mode, rnd, c, h[c], Cardinality(h[c]), 0, 0, None, next);
        BranchTwoSound(h, n, mode, rnd, c, h[c], Cardinality(h[c]), 0, 0, None, next);
        if o.count >= 2 {
          TwoCoarser(n, View(g), View(h));
        }
      }
    }
  }

  lemma {:induction false} BranchTwoSound(h: Grid, n: nat, mode: Mode, rnd: nat -> nat, c: nat, chosen: PSet,
                                          card: nat, i: nat, result: nat, stored: Option<Grid>, next: nat)
    requires Loop(h, n, c, chosen, card, i)
    requires Kept(n, stored) && (stored.Some? ==> Found(n, View(h), View(stored.value)))
    requires stored.Some? ==> View(stored.value)[c] !! Elems(chosen)
    requires result <= 1 && (stored.None? <==> result == 0)
    ensures Branch(h, n, mode, rnd, c, chosen, card, i, result, stored, next).count >= 2 ==> TwoSolutions(n, View(h))
    decreases SumCard(View(h)), 0, card - i, 1
  {
    if i < card {
      var left := PickNext(chosen, mode.randomized, rnd(next));
      var child := h[c := left];
      var after := if mode.randomized then next + 1 else next;
      FixShrinks(h, c, left);
      var o := Solve(child, n, mode, rnd, after);
      BranchStep(h, n, mode, rnd, c, chosen, card, i, result, stored, next, left, o);
      ShrinksRefines(View(h), View(child));
      SolveSound(child, n, mode, rnd, after);
      SolveTwoSound(child, n, mode, rnd, after);
      ViewUpdate(h, c, left);
      if o.count >= 2 {
        TwoCoarser(n, View(h), View(child));
      }
      if o.count >= 1 {
        RefinesTrans(View(h), View(child), View(o.grid));
      }
      LoopNext(h, n, c, chosen, card, i, left);
      if o.count == 0 {
        AfterTwoSoundFail(h, n, mode, rnd, c, chosen, card, i, result, stored, left, o);
      } else if mode.strict && result + o.count <= 1 {
        AfterTwoSoundContinue(h, n, mode, rnd, c, chosen, card, i, result, stored, left, o);
      } else {
        AfterStop(h, n, mode, rnd, c, chosen, card, i, result, stored, left, o);
        if result == 1 && o.count == 1 {
          TwoFound(n, View(h), View(stored.value), View(o.grid), c);
        }
      }
    }
  }

  lemma {:induction false} AfterTwoSoundFail(h: Grid, n: nat, mode: Mode, rnd: nat -> nat, c: nat, chosen: PSet,
                                         card: nat, i: nat, result: nat, stored: Option<Grid>, left: PSet, o: Outcome)
    requires Loop(h, n, c, chosen, card, i) && i < card
    requires Kept(n, stored) && (stored.Some? ==> Found(n, View(h), View(stored.value)))
    requires stored.Some? ==> View(stored.value)[c] !! Elems(chosen)
    requires result <= 1 && (stored.None? <==> result == 0)
    requires Picked(chosen, left) && |o.grid| == n * n
    requires o.count == 0
    ensures After(h, n, mode, rnd, c, chosen, card, i, result, stored, left, o).count >= 2 ==> TwoSolutions(n, View(h))
    decreases SumCard(View(h)), 0, card - i, 0
  {
    hide *;
    LoopNext(h, n, c, chosen, card, i, left);
    AfterFail(h, n, mode, rnd, c, chosen, card, i, result, stored, left, o);
    StoredApart(h, n, c, chosen, card, i, stored, left);
    BranchTwoSound(h, n, mode, rnd, c, Subtract(chosen, left), card, i + 1, result, stored, o.next);
  }

  lemma {:induction false} AfterTwoSoundContinue(h: Grid, n: nat, mode: Mode, rnd: nat -> nat, c: nat, chosen: PSet,
                                         card: nat, i: nat, result: nat, stored: Option<Grid>, left: PSet, o: Outcome)
    requires Loop(h, n, c, chosen, card, i) && i < card
    requires Kept(n, stored) && (stored.Some? ==> Found(n, View(h), View(stored.value)))
    requires stored.Some? ==> View(stored.value)[c] !! Elems(chosen)
    requires result <= 1 && (stored.None? <==> result == 0)
    requires Picked(chosen, left) && |o.grid| == n * n
    requires o.count >= 1 ==> Found(n, View(h), View(o.grid)) && View(o.grid)[c] <= Elems(left)
    requires o.count >= 2 ==> TwoSolutions(n, View(h))
    requires o.count >= 1 && mode.strict && result + o.count <= 1
    ensures After(h, n, mode, rnd, c, chosen, card, i, result, stored, left, o).count >= 2 ==> TwoSolutions(n, View(h))
    decreases SumCard(View(h)), 0, card - i, 0
  {
    hide *;
    LoopNext(h, n, c, chosen, card, i, left);
    AfterContinue(h, n, mode, rnd, c, chosen, card, i, result, stored, left, o);
    BranchTwoSound(h, n, mode, rnd, c, Subtract(chosen, left), card, i + 1, 1, Some(o.grid), o.next);
  }

  /** How many more solutions the candidates `E` left at the branching cell still guarantee,
      given two different solutions whose colours there are `a` and `b`. */
  function Pending(E: set<nat>, a: nat, b: nat): nat
  {
    if a == b then (if a in E then 2 else 0)
    else (if a in E then 1 else 0) + (if b in E then 1 else 0)
  }

  /** In strict mode, a grid that admits two different solutions gets a count of two or more. */
  lemma {:induction false} SolveFindsTwo(g: Grid, n: nat, mode: Mode, rnd: nat -> nat, next: nat, s1: seq<nat>, s2: seq<nat>)
    requires ValidSize(n) && |g| == n * n && mode.strict
    requires Admits(n, View(g), s1) && Admits(n, View(g), s2) && s1 != s2
    ensures Solve(g, n, mode, rnd, next).count >= 2
    decreases SumCard(View(g)), 1, 0, 0
  {
    ConsistentIfAdmits(n, View(g), s1);
    var (status, h) := GridHeuristics(g, n);
    ConsistentIfAdmits(n, View(h), s1);
    SolvedUnique(View(h), s1, s2);
    ShrinksSum(View(g), View(h));
    ChoiceExists(h, n);
    var c := GridChoice(h);
    LoopStart(h, n, c);
    PendingStart(h, c, s1, s2);
    BranchFindsTwo(h, n, mode, rnd, c, h[c], Cardinality(h[c]), 0, 0, None, next, s1, s2);
  }

  lemma {:induction false} BranchFindsTwo(h: Grid, n: nat, mode: Mode, rnd: nat -> nat, c: nat, chosen: PSet,
                                          card: nat, i: nat, result: nat, stored: Option<Grid>, next: nat,
                                          s1: seq<nat>, s2: seq<nat>)
    requires Loop(h, n, c, chosen, card, i)
    requires Kept(n, stored)
    requires stored.None? <==> result == 0
    requires mode.strict
    requires Admits(n, View(h), s1) && Admits(n, View(h), s2) && s1 != s2
    requires result + Pending(Elems(chosen), s1[c], s2[c]) >= 2
    ensures Branch(h, n, mode, rnd, c, chosen, card, i, result, stored, next).count >= 2
    decreases SumCard(View(h)), 0, card - i, 1
  {
    if i < card {
      var left := PickNext(chosen, mode.randomized, rnd(next));
      var child := h[c := left];
      var after := if mode.randomized then next + 1 else next;
      FixShrinks(h, c, left);
      var o := Solve(child, n, mode, rnd, after);
      BranchStep(h, n, mode, rnd, c, chosen, card, i, result, stored, next, left, o);
      if s1[c] in Elems(left) {
        FixAdmits(n, h, c, left, s1);
        SolveFinds(child, n, mode, rnd, after, s1);
      }
      if s2[c] in Elems(left) {
        FixAdmits(n, h, c, left, s2);
        SolveFinds(child, n, mode, rnd, after, s2);
      }
      if s1[c] in Elems(left) && s2[c] in Elems(left) {
        SolveFindsTwo(child, n, mode, rnd, after, s1, s2);
      }
      LoopNext(h, n, c, chosen, card, i, left);
      if o.count == 0 {
        AfterFindsTwoFail(h, n, mode, rnd, c, chosen, card, i, result, stored, left, o, s1, s2);
      } else if mode.strict && result + o.count <= 1 {
        AfterFindsTwoContinue(h, n, mode, rnd, c, chosen, card, i, result, stored, left, o, s1, s2);
      } else {
        AfterStop(h, n, mode, rnd, c, chosen, card, i, result, stored, left, o);
      }
    }
  }

  /** Two solutions the grid admits are both still pending when the loop starts. */
  lemma PendingStart(h: Grid, c: nat, s1: seq<nat>, s2: seq<nat>)
    requires c < |h| && Fits(View(h), s1) && Fits(View(h), s2)
    ensures Pending(Elems(h[c]), s1[c], s2[c]) == 2
  {
    ViewAt(h, c);
  }

  /** Splitting the candidates splits what they guarantee. */
  lemma PendingSplit(E: set<nat>, L: set<nat>, R: set<nat>, a: nat, b: nat)
    requires E == L + R && L !! R
    ensures Pending(E, a, b) == Pending(L, a, b) + Pending(R, a, b)
  {
  }

  /** What the candidates guarantee splits between the one tried and those left after it. */
  lemma PendingNext(h: Grid, n: nat, c: nat, chosen: PSet, card: nat, i: nat, left: PSet, s1: seq<nat>, s2: seq<nat>)
    requires Loop(h, n, c, chosen, card, i) && Picked(chosen, left)
    requires Admits(n, View(h), s1) && Admits(n, View(h), s2)
    ensures Pending(Elems(chosen), s1[c], s2[c]) ==
            Pending(Elems(left), s1[c], s2[c]) + Pending(Elems(Subtract(chosen, left)), s1[c], s2[c])
  {
    PendingRest(chosen, left, s1[c], s2[c]);
  }

  lemma PendingRest(chosen: PSet, left: PSet, a: nat, b: nat)
    requires Elems(left) <= Elems(chosen)
    ensures Pending(Elems(chosen), a, b) == Pending(Elems(left), a, b) + Pending(Elems(Subtract(chosen, left)), a, b)
  {
    hide *;
    PendingSplit(Elems(chosen), Elems(left), Elems(Subtract(chosen, left)), a, b);
  }

  lemma {:induction false} AfterFindsTwoFail(h: Grid, n: nat, mode: Mode, rnd: nat -> nat, c: nat, chosen: PSet,
                                         card: nat, i: nat, result: nat, stored: Option<Grid>, left: PSet, o: Outcome,
                                         s1: seq<nat>, s2: seq<nat>)
    requires Loop(h, n, c, chosen, card, i) && i < card
    requires Kept(n, stored)
    requires stored.None? <==> result == 0
    requires mode.strict
    requires Admits(n, View(h), s1) && Admits(n, View(h), s2) && s1 != s2
    requires Picked(chosen, left) && |o.grid| == n * n
    requires result + Pending(Elems(chosen), s1[c], s2[c]) >= 2
    requires o.count >= Pending(Elems(left), s1[c], s2[c])
    requires o.count == 0
    ensures After(h, n, mode, rnd, c, chosen, card, i, result, stored, left, o).count >= 2
    decreases SumCard(View(h)), 0, card - i, 0
  {
    hide *;
    LoopNext(h, n, c, chosen, card, i, left);
    AfterFail(h, n, mode, rnd, c, chosen, card, i, result, stored, left, o);
    PendingNext(h, n, c, chosen, card, i, left, s1, s2);
    BranchFindsTwo(h, n, mode, rnd, c, Subtract(chosen, left), card, i + 1, result, stored, o.next, s1, s2);
  }

  lemma {:induction false} AfterFindsTwoContinue(h: Grid, n: nat, mode: Mode, rnd: nat -> nat, c: nat, chosen: PSet,
                                         card: nat, i: nat, result: nat, stored: Option<Grid>, left: PSet, o: Outcome,
                                         s1: seq<nat>, s2: seq<nat>)
    requires Loop(h, n, c, chosen, card, i) && i < card
    requires Kept(n, stored)
    requires stored.None? <==> result == 0
    requires mode.strict
    requires Admits(n, View(h), s1) && Admits(n, View(h), s2) && s1 != s2
    requires Picked(chosen, left) && |o.grid| == n * n
    requires result + Pending(Elems(chosen), s1[c], s2[c]) >= 2
    requires o.count >= Pending(Elems(left), s1[c], s2[c])
    requires o.count >= 1 && mode.strict && result + o.count <= 1
    ensures After(h, n, mode, rnd, c, chosen, card, i, result, stored, left, o).count >= 2
    decreases SumCard(View(h)), 0, card - i, 0
  {
    hide *;
    LoopNext(h, n, c, chosen, card, i, left);
    AfterContinue(h, n, mode, rnd, c, chosen, card, i, result, stored, left, o);
    PendingNext(h, n, c, chosen, card, i, left, s1, s2);
    BranchFindsTwo(h, n, mode, rnd, c, Subtract(chosen, left), card, i + 1, 1, Some(o.grid), o.next, s1, s2);
  }

  // ---------------------------------------------------------------------
  // What the count means
  // ---------------------------------------------------------------------

  /** For a grid with no candidate at or above its side: the count is positive exactly when a
      solution exists, and the grid left behind is then solved; without strict mode the count is at
      most one; in strict mode it is at least two exactly when two different solutions exist. */
  lemma SolveCount(g: Grid, n: nat, mode: Mode, rnd: nat -> nat, next: nat)
    requires ValidSize(n) && |g| == n * n && GridWithin(View(g), n)
    ensures var o := Solve(g, n, mode, rnd, next);
            && (o.count >= 1 <==> exists sol :: Allows(n, View(g), sol))
            && (o.count >= 1 ==> Found(n, View(g), View(o.grid)))
            && (!mode.strict ==> o.count <= 1)
            && (mode.strict ==> (o.count >= 2 <==> TwoSolutions(n, View(g))))
  {
    var o := Solve(g, n, mode, rnd, next);
    SolveSound(g, n, mode, rnd, next);
    if o.count >= 1 {
      FoundAllows(n, View(g), View(o.grid));
    }
    if sol :| Allows(n, View(g), sol) {
      SolveFinds(g, n, mode, rnd, next, sol);
    }
    if !mode.strict {
      SolveAtMostOne(g, n, mode, rnd, next);
    }
    SolveTwoSound(g, n, mode, rnd, next);
    if mode.strict && TwoSolutions(n, View(g)) {
      var s1, s2 :| Allows(n, View(g), s1) && Allows(n, View(g), s2) && s1 != s2;
      SolveFindsTwo(g, n, mode, rnd, next, s1, s2);
    }
  }
}
