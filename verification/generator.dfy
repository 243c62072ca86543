/**
 * `grid_generate`: a random solved grid, then cells cleared back to every
 * colour one at a time.
 *
 * The generator first solves a grid whose cells hold every colour, with the
 * solver in generate mode, so that the branching tries candidates in random
 * order. It then draws a share of cells to clear and walks random cells:
 * in strict mode a cell is cleared only when the solver still counts exactly
 * one solution afterwards, otherwise every visited cell is cleared. `rand()`
 * is the function `rnd` applied to the number of calls made so far, the
 * same convention as the solver's.
 *
 * The source's loop keeps going while a flag `still_choices` holds, and
 * that flag can never become false (see `StillChoices`); `RemovalLoop`
 * models the loop with the flag meaning what its name says, some cell not
 * yet visited.
 */
module Generator {
  import opened PSets
  import opened Grids
  import opened Subgrids
  import opened Propagation
  import opened Solver

  /** The grid being thinned, which cells were visited (indexed like the grid), how many cells
      were cleared, and the number of `rand()` calls made so far. */
  datatype State = State(grid: Grid, checked: seq<bool>, removed: nat, next: nat)

  ghost predicate Valid(n: nat, s: State)
  {
    ValidSize(n) && |s.grid| == n * n && |s.checked| == n * n
  }

  /** The grid allows one solution and no second one. */
  ghost predicate Unique(n: nat, G: seq<set<nat>>)
  {
    (exists sol :: Allows(n, G, sol)) && !TwoSolutions(n, G)
  }

  // ---------------------------------------------------------------------
  // How many cells to clear
  // ---------------------------------------------------------------------

  /** The share of cells to clear, in percent, for a side `n` and a draw of `rand()`. */
  function Percent(n: nat, draw: nat): (p: nat)
    ensures n == 1 ==> p == 100
    ensures 1 < n <= 16 ==> 40 <= p < 60
    ensures 16 < n <= 49 ==> 30 <= p < 40
    ensures 49 < n ==> 20 <= p < 25
  {
    if n == 1 then 100
    else if n <= 16 then 40 + draw % 20
    else if n <= 49 then 30 + draw % 10
    else 20 + draw % 5
  }

  /** The shares the draw can give: all of them, and only them, for a side other than 1. */
  ghost predicate InBand(n: nat, p: nat)
  {
    if n == 1 then p == 100
    else if n <= 16 then 40 <= p < 60
    else if n <= 49 then 30 <= p < 40
    else 20 <= p < 25
  }

  /** A share is reachable by some draw exactly when it lies in the band of the side. */
  lemma PercentBand(n: nat, p: nat)
    ensures (exists draw: nat :: Percent(n, draw) == p) <==> InBand(n, p)
  {
    if InBand(n, p) {
      var draw: nat := if n == 1 then 0 else if n <= 16 then p - 40 else if n <= 49 then p - 30 else p - 20;
      assert Percent(n, draw) == p;
    }
  }

  /** The number of cells to clear: `percent` percent of the cells, rounded down. */
  function RemoveLimit(n: nat, percent: nat): (limit: nat)
    ensures limit * 100 <= n * n * percent < (limit + 1) * 100
    ensures percent <= 100 ==> limit <= n * n
  {
    n * n * percent / 100
  }

  /** The draw that decides the share: none on a grid of side 1. */
  function PercentDraws(n: nat): nat
  {
    if n == 1 then 0 else 1
  }

  // ---------------------------------------------------------------------
  // The probe: from a random cell to the first one not visited
  // ---------------------------------------------------------------------

  /** The probe moves `x` first and `y` when `x` wraps: cell `(x, y)` is at this position of
      the walk, which is the flat index of `(y, x)`. */
  function ProbeKey(n: nat, x: nat, y: nat): nat
  {
    Cell(n, y, x)
  }

  /** The flat index of the cell at position `q` of the walk. */
  function AtKey(n: nat, q: nat): nat
    requires n > 0
  {
    Cell(n, q % n, q / n)
  }

  /** A position one or more laps round the walk, brought back into it. */
  function Wrap(m: nat, v: nat): nat
  {
    if v < m then v else v - m
  }

  /** How many steps the walk takes from position `from` to position `to`. */
  function Dist(m: nat, from: nat, to: nat): nat
    requires from < m && to < m
  {
    if from <= to then to - from else to + m - from
  }

  /** The cell the walk reaches `j` steps after position `key`. */
  function Walked(n: nat, key: nat, j: nat): (c: nat)
    requires n > 0 && key < n * n && j < n * n
    ensures c < n * n
  {
    var q := Wrap(n * n, key + j);
    AtKeyBound(n, q);
    AtKey(n, q)
  }

  /** Every cell the walk passes in its first `d` steps from position `key` was visited before. */
  ghost predicate WalkChecked(checked: seq<bool>, n: nat, key: nat, d: nat)
    requires n > 0 && |checked| == n * n && key < n * n
  {
    forall j | 0 <= j < d && j < n * n :: checked[Walked(n, key, j)]
  }

  /** A cell not visited yet lies fewer than `budget` steps ahead of position `key`. */
  ghost predicate Reaches(checked: seq<bool>, n: nat, key: nat, budget: nat)
    requires n > 0 && |checked| == n * n && key < n * n
  {
    exists d | 0 <= d < budget && d < n * n :: !checked[Walked(n, key, d)]
  }

  /** The cell at a position of the walk and the position of a cell are inverse. */
  lemma KeyCell(n: nat, x: nat, y: nat)
    requires x < n && y < n
    ensures ProbeKey(n, x, y) < n * n
    ensures AtKey(n, ProbeKey(n, x, y)) == Cell(n, x, y)
    ensures Cell(n, x, y) < n * n
  {
    CellBound(n, y, x);
    CellCoords(n, y, x);
    CellBound(n, x, y);
  }

  /** Every position of the walk designates a cell of the grid. */
  lemma AtKeyBound(n: nat, q: nat)
    requires n > 0 && q < n * n
    ensures AtKey(n, q) < n * n
  {
    DivBelow(q, n, n);
    CellBound(n, q % n, q / n);
  }

  /** The column the probe moves to from column `x`. */
  function NextX(n: nat, x: nat): nat
    requires n > 0
  {
    (x + 1) % n
  }

  /** The row the probe moves to from cell `(x, y)`: the next one when `x` wraps. */
  function NextY(n: nat, x: nat, y: nat): nat
    requires n > 0
  {
    if NextX(n, x) == 0 then (y + 1) % n else y
  }

  lemma ModBelow(a: nat, n: nat)
    requires a < n
    ensures a % n == a
  {
    DivUnique(a, n, 0, a);
  }

  lemma ModSelf(n: nat)
    requires n > 0
    ensures n % n == 0
  {
    DivUnique(n, n, 1, 0);
  }

  /** One step of the probe moves one position along the walk. */
  lemma ProbeNext(n: nat, x: nat, y: nat)
    requires x < n && y < n
    ensures NextX(n, x) < n && NextY(n, x, y) < n
    ensures ProbeKey(n, NextX(n, x), NextY(n, x, y)) == Wrap(n * n, ProbeKey(n, x, y) + 1)
  {
    if x + 1 < n {
      NextInRow(n, x, y);
    } else if y + 1 < n {
      NextRow(n, y);
    } else {
      LastCell(n);
    }
  }

  lemma NextInRow(n: nat, x: nat, y: nat)
    requires x + 1 < n && y < n
    ensures NextX(n, x) == x + 1 && NextY(n, x, y) == y
    ensures ProbeKey(n, x + 1, y) == Wrap(n * n, ProbeKey(n, x, y) + 1)
  {
    ModBelow(x + 1, n);
    KeyCell(n, x + 1, y);
  }

  lemma NextRow(n: nat, y: nat)
    requires y + 1 < n
    ensures NextX(n, n - 1) == 0 && NextY(n, n - 1, y) == y + 1
    ensures ProbeKey(n, 0, y + 1) == Wrap(n * n, ProbeKey(n, n - 1, y) + 1)
  {
    ModSelf(n);
    ModBelow(y + 1, n);
    KeyCell(n, 0, y + 1);
    assert (y + 1) * n == y * n + n;
  }

  lemma LastCell(n: nat)
    requires n > 0
    ensures NextX(n, n - 1) == 0 && NextY(n, n - 1, n - 1) == 0
    ensures ProbeKey(n, 0, 0) == Wrap(n * n, ProbeKey(n, n - 1, n - 1) + 1)
  {
    ModSelf(n);
    assert (n - 1) * n + n == n * n;
  }

  /** The inner loop of the removal loop: from cell `(x, y)`, step along the walk until a cell not
      visited yet. `budget` bounds the steps left; the caller's starting budget of one lap is
      never used up, because a cell not visited lies within one lap. */
  function ProbeFrom(checked: seq<bool>, n: nat, x: nat, y: nat, budget: nat): (r: (nat, nat))
    requires ValidSize(n) && |checked| == n * n && x < n && y < n && ProbeKey(n, x, y) < n * n
    requires Reaches(checked, n, ProbeKey(n, x, y), budget)
    ensures r.0 < n && r.1 < n && Cell(n, r.0, r.1) < n * n && ProbeKey(n, r.0, r.1) < n * n
    ensures !checked[Cell(n, r.0, r.1)]
    ensures WalkChecked(checked, n, ProbeKey(n, x, y), Dist(n * n, ProbeKey(n, x, y), ProbeKey(n, r.0, r.1)))
    decreases budget
  {
    KeyCell(n, x, y);
    if !checked[Cell(n, x, y)] then
      WalkNone(checked, n, ProbeKey(n, x, y));
      (x, y)
    else
      ReachesNext(checked, n, x, y, budget);
      var r := ProbeFrom(checked, n, NextX(n, x), NextY(n, x, y), budget - 1);
      WalkNext(checked, n, x, y, r.0, r.1);
      r
  }

  lemma WalkNone(checked: seq<bool>, n: nat, key: nat)
    requires n > 0 && |checked| == n * n && key < n * n
    ensures WalkChecked(checked, n, key, Dist(n * n, key, key))
  {
  }

  /** When the probe steps off a visited cell, the cell it looks for is one step closer. */
  lemma ReachesNext(checked: seq<bool>, n: nat, x: nat, y: nat, budget: nat)
    requires ValidSize(n) && |checked| == n * n && x < n && y < n && ProbeKey(n, x, y) < n * n
    requires Reaches(checked, n, ProbeKey(n, x, y), budget)
    requires checked[Cell(n, x, y)]
    ensures budget >= 1
    ensures NextX(n, x) < n && NextY(n, x, y) < n && ProbeKey(n, NextX(n, x), NextY(n, x, y)) < n * n
    ensures Reaches(checked, n, ProbeKey(n, NextX(n, x), NextY(n, x, y)), budget - 1)
  {
    KeyCell(n, x, y);
    ProbeNext(n, x, y);
    var key := ProbeKey(n, x, y);
    var key' := ProbeKey(n, NextX(n, x), NextY(n, x, y));
    var d :| 0 <= d < budget && d < n * n && !checked[Walked(n, key, d)];
    WalkedZero(n, key);
    assert d != 0;
    WalkedStep(n, key, d);
    assert !checked[Walked(n, key', d - 1)];
  }

  /** The cells the probe passed from the next cell on, with the cell it stepped off, are all
      those it passed from `(x, y)`. */
  lemma WalkNext(checked: seq<bool>, n: nat, x: nat, y: nat, rx: nat, ry: nat)
    requires ValidSize(n) && |checked| == n * n && x < n && y < n && rx < n && ry < n
    requires checked[Cell(n, x, y)] && !checked[Cell(n, rx, ry)]
    requires NextX(n, x) < n && NextY(n, x, y) < n
    requires ProbeKey(n, NextX(n, x), NextY(n, x, y)) < n * n && ProbeKey(n, rx, ry) < n * n
    requires WalkChecked(checked, n, ProbeKey(n, NextX(n, x), NextY(n, x, y)),
                         Dist(n * n, ProbeKey(n, NextX(n, x), NextY(n, x, y)), ProbeKey(n, rx, ry)))
    ensures ProbeKey(n, x, y) < n * n
    ensures WalkChecked(checked, n, ProbeKey(n, x, y), Dist(n * n, ProbeKey(n, x, y), ProbeKey(n, rx, ry)))
  {
    KeyCell(n, x, y);
    KeyCell(n, rx, ry);
    ProbeNext(n, x, y);
    var key := ProbeKey(n, x, y);
    var key' := ProbeKey(n, NextX(n, x), NextY(n, x, y));
    var kr := ProbeKey(n, rx, ry);
    WalkedZero(n, key);
    assert key != kr;
    DistStep(n * n, key, kr);
    forall j | 0 <= j < Dist(n * n, key, kr) && j < n * n
      ensures checked[Walked(n, key, j)]
    {
      if j != 0 {
        WalkedStep(n, key, j);
      }
    }
  }

  /** The walk starts on the cell it is at. */
  lemma WalkedZero(n: nat, key: nat)
    requires n > 0 && key < n * n
    ensures Walked(n, key, 0) == AtKey(n, key)
  {
  }

  /** The walk from the next position is the walk from this one, one step later. */
  lemma WalkedStep(n: nat, key: nat, d: nat)
    requires n > 0 && key < n * n && 1 <= d < n * n
    ensures Wrap(n * n, key + 1) < n * n
    ensures Walked(n, Wrap(n * n, key + 1), d - 1) == Walked(n, key, d)
  {
    WrapStep(n * n, key, d);
  }

  lemma WrapStep(m: nat, key: nat, d: nat)
    requires key < m && 1 <= d < m
    ensures Wrap(m, key + 1) < m
    ensures Wrap(m, Wrap(m, key + 1) + (d - 1)) == Wrap(m, key + d)
  {
  }

  /** Stepping off a position other than the target brings the target one step closer. */
  lemma DistStep(m: nat, key: nat, kr: nat)
    requires key < m && kr < m && key != kr
    ensures Wrap(m, key + 1) < m
    ensures Dist(m, key, kr) == Dist(m, Wrap(m, key + 1), kr) + 1
  {
  }

  /** The walk reaches any position within one lap. */
  lemma WrapDist(m: nat, key: nat, kc: nat)
    requires key < m && kc < m
    ensures Dist(m, key, kc) < m && Wrap(m, key + Dist(m, key, kc)) == kc
  {
  }

  /** Every index of the grid is the flat index of its row and column. */
  lemma CellOf(n: nat, c: nat)
    requires n > 0 && c < n * n
    ensures c / n < n && c % n < n && c == Cell(n, c / n, c % n)
  {
    DivBelow(c, n, n);
  }

  /** A cell not visited lies within one lap of the walk from any position. */
  lemma ReachesLap(checked: seq<bool>, n: nat, x: nat, y: nat)
    requires ValidSize(n) && |checked| == n * n && x < n && y < n
    requires AnyUnchecked(checked)
    ensures ProbeKey(n, x, y) < n * n
    ensures Reaches(checked, n, ProbeKey(n, x, y), n * n)
  {
    KeyCell(n, x, y);
    var c :| 0 <= c < |checked| && !checked[c];
    CellOf(n, c);
    KeyCell(n, c / n, c % n);
    var kc := ProbeKey(n, c / n, c % n);
    var key := ProbeKey(n, x, y);
    WrapDist(n * n, key, kc);
    assert Walked(n, key, Dist(n * n, key, kc)) == c;
  }

  /** Some cell was not visited yet. */
  predicate AnyUnchecked(checked: seq<bool>)
  {
    exists c | 0 <= c < |checked| :: !checked[c]
  }

  /** The cells not visited yet. */
  ghost function Unchecked(checked: seq<bool>): set<nat>
  {
    set c: nat | c < |checked| && !checked[c]
  }

  // ---------------------------------------------------------------------
  // One pass of the removal loop
  // ---------------------------------------------------------------------

  /** The grid with cell `(x, y)` holding every colour of the game again. */
  function Clear(g: Grid, n: nat, x: nat, y: nat): (h: Grid)
    requires ValidSize(n) && |g| == n * n && x < n && y < n
    ensures |h| == n * n && Cell(n, x, y) < n * n
    ensures Elems(h[Cell(n, x, y)]) == RangeSet(n)
    ensures forall c | 0 <= c < |g| && c != Cell(n, x, y) :: h[c] == g[c]
  {
    ValidSizeBounds(n);
    CellBound(n, x, y);
    g[Cell(n, x, y) := FullRange(n)]
  }

  /** The body of the removal loop once the probe has settled on cell `(x, y)`: in strict mode the
      cell is cleared only when the solver, run on the cleared copy, counts exactly one solution;
      otherwise it is cleared outright. The cell is marked visited either way. */
  function Settle(s: State, n: nat, strict: bool, rnd: nat -> nat, x: nat, y: nat): (r: State)
    requires Valid(n, s) && x < n && y < n
    ensures Valid(n, r) && Cell(n, x, y) < n * n
    ensures r.checked == s.checked[Cell(n, x, y) := true]
    ensures var cleared := Clear(s.grid, n, x, y);
            var committed := !strict || Solve(cleared, n, Mode(strict, true), rnd, s.next).count == 1;
            && (committed ==> r.grid == cleared && r.removed == s.removed + 1)
            && (!committed ==> r.grid == s.grid && r.removed == s.removed)
  {
    CellBound(n, x, y);
    var cleared := Clear(s.grid, n, x, y);
    var checked := s.checked[Cell(n, x, y) := true];
    if strict then
      var o := Solve(cleared, n, Mode(strict, true), rnd, s.next);
      if o.count == 1 then State(cleared, checked, s.removed + 1, o.next)
      else State(s.grid, checked, s.removed, o.next)
    else State(cleared, checked, s.removed + 1, s.next)
  }

  /** `r` comes from `s` by clearing cells as they are visited: a visited cell stays visited, a
      cell either keeps its value or holds every colour again, and a cell still not visited is
      untouched. */
  ghost predicate Evolves(n: nat, s: State, r: State)
  {
    && |r.grid| == |s.grid| && |r.checked| == |s.checked| == |s.grid|
    && forall c | 0 <= c < |s.grid| ::
         && (r.grid[c] == s.grid[c] || Elems(r.grid[c]) == RangeSet(n))
         && (s.checked[c] ==> r.checked[c])
         && (!r.checked[c] ==> r.grid[c] == s.grid[c])
  }

  lemma EvolvesTrans(n: nat, s: State, t: State, r: State)
    requires Evolves(n, s, t) && Evolves(n, t, r)
    ensures Evolves(n, s, r)
  {
  }

  /** The cells where two grids of the same size differ. */
  ghost function Changed(a: Grid, b: Grid): set<nat>
    requires |a| == |b|
  {
    set c: nat | c < |a| && a[c] != b[c]
  }

  /** A cell that differs between the first and the last of three grids differs at one of the two
      steps, so the changes of the steps bound the change overall. */
  lemma ChangedTrans(a: Grid, b: Grid, c: Grid)
    requires |a| == |b| == |c|
    ensures |Changed(a, c)| <= |Changed(a, b)| + |Changed(b, c)|
  {
    SubsetCard(Changed(a, c), Changed(a, b) + Changed(b, c));
  }

  lemma {:induction false} SubsetCard(x: set<nat>, y: set<nat>)
    requires x <= y
    ensures |x| <= |y|
    decreases |y|
  {
    if x != {} {
      var e :| e in x;
      SubsetCard(x - {e}, y - {e});
    }
  }

  /** One pass: two draws give the start of the probe, which moves on to a cell not visited, and
      that cell is settled. */
  function Pass(s: State, n: nat, strict: bool, rnd: nat -> nat): (r: State)
    requires Valid(n, s) && AnyUnchecked(s.checked)
    ensures Valid(n, r)
    ensures |Unchecked(r.checked)| < |Unchecked(s.checked)|
    ensures r.removed == s.removed || r.removed == s.removed + 1
    ensures Evolves(n, s, r)
    ensures exists c | 0 <= c < n * n && !s.checked[c] ::
              r.checked == s.checked[c := true] && Changed(s.grid, r.grid) <= {c}
    ensures |Changed(s.grid, r.grid)| <= r.removed - s.removed
    ensures !strict ==> r.removed == s.removed + 1
  {
    ValidSizeBounds(n);
    var x0 := rnd(s.next) % n;
    var y0 := rnd(s.next + 1) % n;
    ReachesLap(s.checked, n, x0, y0);
    var (x, y) := ProbeFrom(s.checked, n, x0, y0, n * n);
    var r := Settle(s.(next := s.next + 2), n, strict, rnd, x, y);
    VisitShrinks(s.checked, Cell(n, x, y));
    SettleChanges(s.(next := s.next + 2), n, strict, rnd, x, y);
    r
  }

  /** Settling a cell changes that cell at most, and only when it counts a clearing. */
  lemma SettleChanges(s: State, n: nat, strict: bool, rnd: nat -> nat, x: nat, y: nat)
    requires Valid(n, s) && x < n && y < n
    ensures Cell(n, x, y) < n * n
    ensures var r := Settle(s, n, strict, rnd, x, y);
            && Changed(s.grid, r.grid) <= {Cell(n, x, y)}
            && |Changed(s.grid, r.grid)| <= r.removed - s.removed
  {
    var r := Settle(s, n, strict, rnd, x, y);
    assert Changed(s.grid, r.grid) <= {Cell(n, x, y)};
    SubsetCard(Changed(s.grid, r.grid), {Cell(n, x, y)});
    if r.removed == s.removed {
      assert Changed(s.grid, r.grid) == {};
    }
  }

  /** Visiting a cell not visited yet leaves one fewer. */
  lemma VisitShrinks(checked: seq<bool>, c: nat)
    requires c < |checked| && !checked[c]
    ensures Unchecked(checked[c := true]) == Unchecked(checked) - {c}
    ensures |Unchecked(checked[c := true])| == |Unchecked(checked)| - 1
  {
    assert c in Unchecked(checked);
  }

  /** A pass visits exactly one cell, so one fewer cell is left unvisited. */
  lemma PassVisitsOne(s: State, n: nat, strict: bool, rnd: nat -> nat)
    requires Valid(n, s) && AnyUnchecked(s.checked)
    ensures |Unchecked(Pass(s, n, strict, rnd).checked)| == |Unchecked(s.checked)| - 1
  {
    var r := Pass(s, n, strict, rnd);
    var c :| 0 <= c < n * n && !s.checked[c] && r.checked == s.checked[c := true] && Changed(s.grid, r.grid) <= {c};
    VisitShrinks(s.checked, c);
  }

  /** With every cell visited, none is left unvisited. */
  lemma NoneUnchecked(checked: seq<bool>)
    requires !AnyUnchecked(checked)
    ensures |Unchecked(checked)| == 0
  {
    assert Unchecked(checked) == {};
  }

  /** The removal loop, with its second condition read as some cell not visited yet: it runs until
      enough cells are cleared or every cell was visited. */
  function RemovalLoop(s: State, n: nat, strict: bool, rnd: nat -> nat, limit: nat): (r: State)
    requires Valid(n, s)
    ensures Valid(n, r)
    ensures r.removed >= limit || !AnyUnchecked(r.checked)
    ensures s.removed <= limit ==> r.removed <= limit
    ensures r.removed >= s.removed
    ensures Evolves(n, s, r)
    ensures |Changed(s.grid, r.grid)| <= r.removed - s.removed
    ensures !strict && s.removed <= limit && limit - s.removed <= |Unchecked(s.checked)| ==> r.removed == limit
    decreases |Unchecked(s.checked)|
  {
    if s.removed < limit && AnyUnchecked(s.checked) then
      var t := Pass(s, n, strict, rnd);
      var r := RemovalLoop(t, n, strict, rnd, limit);
      EvolvesTrans(n, s, t, r);
      ChangedTrans(s.grid, t.grid, r.grid);
      PassVisitsOne(s, n, strict, rnd);
      r
    else
      if !AnyUnchecked(s.checked) then NoneUnchecked(s.checked); s
      else s
  }

  // ---------------------------------------------------------------------
  // Uniqueness in strict mode
  // ---------------------------------------------------------------------

  /** Clearing a cell keeps every candidate below the side. */
  lemma ClearWithin(g: Grid, n: nat, x: nat, y: nat)
    requires ValidSize(n) && |g| == n * n && x < n && y < n && GridWithin(View(g), n)
    ensures GridWithin(View(Clear(g, n, x, y)), n)
  {
    var h := Clear(g, n, x, y);
    forall c | 0 <= c < |h| ensures View(h)[c] <= RangeSet(n) {
      ViewAt(h, c);
      ViewAt(g, c);
    }
  }

  /** A count of exactly one in strict mode means exactly one solution. */
  lemma CountOneUnique(g: Grid, n: nat, rnd: nat -> nat, next: nat)
    requires ValidSize(n) && |g| == n * n && GridWithin(View(g), n)
    requires Solve(g, n, Mode(true, true), rnd, next).count == 1
    ensures Unique(n, View(g))
  {
    SolveCount(g, n, Mode(true, true), rnd, next);
  }

  /** In strict mode a settled cell leaves a grid with exactly one solution, if it had one. */
  lemma SettleUnique(s: State, n: nat, rnd: nat -> nat, x: nat, y: nat)
    requires Valid(n, s) && x < n && y < n
    requires GridWithin(View(s.grid), n) && Unique(n, View(s.grid))
    ensures var r := Settle(s, n, true, rnd, x, y);
            GridWithin(View(r.grid), n) && Unique(n, View(r.grid))
  {
    ClearWithin(s.grid, n, x, y);
    var cleared := Clear(s.grid, n, x, y);
    if Solve(cleared, n, Mode(true, true), rnd, s.next).count == 1 {
      CountOneUnique(cleared, n, rnd, s.next);
    }
  }

  /** In strict mode a pass of the removal loop keeps a grid with exactly one solution. */
  lemma PassUnique(s: State, n: nat, rnd: nat -> nat)
    requires Valid(n, s) && AnyUnchecked(s.checked)
    requires GridWithin(View(s.grid), n) && Unique(n, View(s.grid))
    ensures var r := Pass(s, n, true, rnd);
            GridWithin(View(r.grid), n) && Unique(n, View(r.grid))
  {
    hide Settle, Solve, ProbeFrom, View, Elems;
    ValidSizeBounds(n);
    var x0 := rnd(s.next) % n;
    var y0 := rnd(s.next + 1) % n;
    ReachesLap(s.checked, n, x0, y0);
    var (x, y) := ProbeFrom(s.checked, n, x0, y0, n * n);
    SettleUnique(s.(next := s.next + 2), n, rnd, x, y);
    assert Pass(s, n, true, rnd) == Settle(s.(next := s.next + 2), n, true, rnd, x, y);
  }

  /** In strict mode the removal loop keeps a grid with exactly one solution. */
  lemma {:induction false} LoopUnique(s: State, n: nat, rnd: nat -> nat, limit: nat)
    requires Valid(n, s) && GridWithin(View(s.grid), n) && Unique(n, View(s.grid))
    ensures var r := RemovalLoop(s, n, true, rnd, limit);
            GridWithin(View(r.grid), n) && Unique(n, View(r.grid))
    decreases |Unchecked(s.checked)|
  {
    if s.removed < limit && AnyUnchecked(s.checked) {
      PassUnique(s, n, rnd);
      LoopUnique(Pass(s, n, true, rnd), n, rnd, limit);
    }
  }

  // ---------------------------------------------------------------------
  // grid_generate
  // ---------------------------------------------------------------------

  /** The grid of side `n` whose cells hold every colour of the game. */
  function FullGrid(n: nat): (g: Grid)
    requires ValidSize(n)
    ensures |g| == n * n
    ensures forall c | 0 <= c < n * n :: Elems(g[c]) == RangeSet(n)
  {
    ValidSizeBounds(n);
    seq(n * n, _ => FullRange(n))
  }

  /** `grid_generate`: solve the full grid in generate mode, draw the number of cells to clear,
      then run the removal loop. */
  function Generate(n: nat, strict: bool, rnd: nat -> nat): (r: State)
    requires ValidSize(n)
    ensures Valid(n, r)
    ensures var o := Solve(FullGrid(n), n, Mode(strict, true), rnd, 0);
            var limit := RemoveLimit(n, Percent(n, rnd(o.next)));
            && r.removed <= limit
            && (r.removed == limit || !AnyUnchecked(r.checked))
            && (forall c | 0 <= c < n * n :: r.grid[c] == o.grid[c] || Elems(r.grid[c]) == RangeSet(n))
            && |Changed(o.grid, r.grid)| <= r.removed
            && (!strict ==> r.removed == limit)
  {
    var o := Solve(FullGrid(n), n, Mode(strict, true), rnd, 0);
    var limit := RemoveLimit(n, Percent(n, rnd(o.next)));
    var start := State(o.grid, seq(n * n, _ => false), 0, o.next + PercentDraws(n));
    AllUnchecked(n * n);
    RemovalLoop(start, n, strict, rnd, limit)
  }

  /** At the start no cell is visited: all of them are left. */
  lemma {:induction false} AllUnchecked(m: nat)
    ensures |Unchecked(seq(m, _ => false))| == m
  {
    if m > 0 {
      AllUnchecked(m - 1);
      assert Unchecked(seq(m, _ => false)) == Unchecked(seq(m - 1, _ => false)) + {m - 1};
    }
  }

  /** Every candidate of the full grid lies below the side. */
  lemma FullWithin(n: nat)
    requires ValidSize(n)
    ensures GridWithin(View(FullGrid(n)), n)
  {
    var g := FullGrid(n);
    forall c | 0 <= c < |g| ensures View(g)[c] <= RangeSet(n) {
      ViewAt(g, c);
    }
  }

  /** A solved grid allows exactly one solution, its own. */
  lemma FoundUnique(n: nat, G: seq<set<nat>>, F: seq<set<nat>>)
    requires |G| == n * n && Found(n, G, F)
    ensures Unique(n, F)
  {
    assert Found(n, F, F);
    FoundAllows(n, F, F);
    forall s1, s2 | Allows(n, F, s1) && Allows(n, F, s2) ensures s1 == s2 {
      SolvedUnique(F, s1, s2);
    }
  }

  /** In strict mode the generated grid allows exactly one solution, provided the first solve
      found one. */
  lemma GenerateUnique(n: nat, rnd: nat -> nat)
    requires ValidSize(n)
    requires exists sol :: Allows(n, View(FullGrid(n)), sol)
    ensures Unique(n, View(Generate(n, true, rnd).grid))
  {
    hide Solve, RemovalLoop, FullGrid, View, Elems;
    var o := Solve(FullGrid(n), n, Mode(true, true), rnd, 0);
    FullWithin(n);
    SolveCount(FullGrid(n), n, Mode(true, true), rnd, 0);
    FoundUnique(n, View(FullGrid(n)), View(o.grid));
    WithinRefined(n, View(FullGrid(n)), View(o.grid));
    var limit := RemoveLimit(n, Percent(n, rnd(o.next)));
    var start := State(o.grid, seq(n * n, _ => false), 0, o.next + PercentDraws(n));
    LoopUnique(start, n, rnd, limit);
  }

  /** A refinement of a grid within the side is within the side. */
  lemma WithinRefined(n: nat, G: seq<set<nat>>, F: seq<set<nat>>)
    requires GridWithin(G, n) && Refines(G, F)
    ensures GridWithin(F, n)
  {
  }

  // ---------------------------------------------------------------------
  // The loop condition as written
  // ---------------------------------------------------------------------

  /** The double loop at the end of a pass, from cell `c` on: it visits the cells row by row, the
      order of their flat indices, and or-s `still` with "this cell is unchecked". */
  function StillFrom(still: bool, checked: seq<bool>, c: nat): (r: bool)
    requires c <= |checked|
    ensures r <==> still || exists d | c <= d < |checked| :: !checked[d]
    decreases |checked| - c
  {
    if c == |checked| then still
    else StillFrom(still || !checked[c], checked, c + 1)
  }

  /** The value of `still_choices` after a pass that started with `still`. */
  function StillChoices(still: bool, checked: seq<bool>): (r: bool)
    ensures r <==> still || AnyUnchecked(checked)
  {
    StillFrom(still, checked, 0)
  }

  /** The flag starts `true`, so no pass can ever make it `false`. */
  lemma StillChoicesNeverFalse(checked: seq<bool>)
    ensures StillChoices(true, checked)
  {
  }

  /** Once every cell was visited, the probe has no cell to stop on: from any position, no
      number of steps reaches an unvisited cell. When fewer cells than the limit were cleared,
      the loop condition still holds (`StillChoicesNeverFalse`), so the next pass enters the
      probe and the inner loop never ends. */
  lemma StillChoicesStuck(s: State, n: nat, key: nat)
    requires Valid(n, s) && key < n * n
    requires forall c | 0 <= c < |s.checked| :: s.checked[c]
    ensures n > 0 && forall budget: nat :: !Reaches(s.checked, n, key, budget)
  {
    ValidSizeBounds(n);
  }
}
