/**
 * The three group heuristics of the solver (`cross_hatching`, `lone_number`,
 * `n_possible`) and `subgrid_heuristics`, which runs them in turn.
 *
 * Each heuristic ends with a loop of the same shape: every cell gets a
 * revised value, which is written back when it differs, and the heuristic
 * reports `true` exactly when nothing was written. That loop is `Rewrite`;
 * what distinguishes the heuristics is the `Rule` it applies.
 *
 * Every heuristic only removes candidates from cells that are not yet
 * singletons (`Shrinks`), and never removes the colour of a filling the
 * group admits: that is what makes propagation safe for the solver.
 */
module Heuristics {
  import opened PSets
  import opened Subgrids

  /** The cells after a heuristic, and the heuristic's result (`true`: nothing changed). */
  datatype Pass = Pass(cells: seq<PSet>, stable: bool)

  // ---------------------------------------------------------------------
  // Shrinking
  // ---------------------------------------------------------------------

  /** `T` is `S` with candidates removed from some cells that held more than one colour. */
  ghost predicate Shrinks(S: seq<set<nat>>, T: seq<set<nat>>)
  {
    && |T| == |S|
    && forall j | 0 <= j < |S| :: T[j] == S[j] || (|S[j]| != 1 && T[j] < S[j])
  }

  lemma ShrinksTrans(S: seq<set<nat>>, T: seq<set<nat>>, U: seq<set<nat>>)
    requires Shrinks(S, T) && Shrinks(T, U)
    ensures Shrinks(S, U)
  {
  }

  /** The total number of candidates. */
  ghost function SumCard(S: seq<set<nat>>): nat
  {
    if |S| == 0 then 0 else SumCard(S[..|S| - 1]) + |S[|S| - 1]|
  }

  /** Shrinking never adds candidates, and strictly lowers their number when it changes anything. */
  lemma {:induction false} ShrinksSum(S: seq<set<nat>>, T: seq<set<nat>>)
    requires Shrinks(S, T)
    ensures SumCard(T) <= SumCard(S)
    ensures T != S ==> SumCard(T) < SumCard(S)
    decreases |S|
  {
    if |S| > 0 {
      var m := |S| - 1;
      assert Shrinks(S[..m], T[..m]);
      ShrinksSum(S[..m], T[..m]);
      assert T == T[..m] + [T[m]] && S == S[..m] + [S[m]];
      if T[m] != S[m] {
        assert T[m] < S[m];
        SubsetCardStrict(T[m], S[m]);
      }
    }
  }

  lemma SubsetCardStrict<T>(A: set<T>, B: set<T>)
    requires A < B
    ensures |A| < |B|
  {
    assert B == A + (B - A);
    assert B - A != {};
  }

  /** Cells are equal exactly when their colour sets are. */
  lemma ViewInjective(a: seq<PSet>, b: seq<PSet>)
    requires |a| == |b| && View(a) == View(b)
    ensures a == b
  {
    forall j | 0 <= j < |a| ensures a[j] == b[j] {
      ViewAt(a, j);
      ViewAt(b, j);
      EqualIff(a[j], b[j]);
    }
  }

  /** A filling that fits the cells also fits them once they have shrunk in its favour. */
  ghost predicate Keeps(S: seq<set<nat>>, T: seq<set<nat>>, vals: seq<nat>)
  {
    Fits(S, vals) ==> Fits(T, vals)
  }

  // ---------------------------------------------------------------------
  // The rewriting loop
  // ---------------------------------------------------------------------

  /** What the last loop of a heuristic does to one cell. */
  datatype Rule =
    | Hatch(placed: PSet)     // cross_hatching: drop the colours placed in the group
    | Lone(lone: PSet)        // lone_number: keep only the colours that occur in one cell
    | Eliminate(group: PSet)  // n_possible: drop the colours of a naked group

  /** The set-level effect of `Hatch(F)` on a cell `C`. */
  ghost function HatchTarget(C: set<nat>, F: set<nat>): set<nat>
  {
    if |C| == 1 then C else C - F
  }

  /** The set-level effect of `Lone(L)`: a cell that holds some lone colours, but not only those,
      is cut down to them. */
  ghost function LoneTarget(C: set<nat>, L: set<nat>): set<nat>
  {
    if |C| != 1 && C * L != {} && C * L != C then C * L else C
  }

  /** The set-level effect of `Eliminate(X)`: a cell other than the copies of `X` loses `X`'s colours. */
  ghost function ElimTarget(C: set<nat>, X: set<nat>): set<nat>
  {
    if |C| != 1 && C != X then C - X else C
  }

  /** The revised value of cell `c`. */
  function Revise(rule: Rule, c: PSet): (r: PSet)
    ensures rule.Hatch? ==> Elems(r) == HatchTarget(Elems(c), Elems(rule.placed))
    ensures rule.Lone? ==> Elems(r) == LoneTarget(Elems(c), Elems(rule.lone))
    ensures rule.Eliminate? ==> Elems(r) == ElimTarget(Elems(c), Elems(rule.group))
    ensures r == c || (|Elems(c)| != 1 && Elems(r) < Elems(c))
  {
    match rule
    case Hatch(f) => ReviseHatch(f, c)
    case Lone(l) => ReviseLone(l, c)
    case Eliminate(x) => ReviseElim(x, c)
  }

  /** The body of the last loop of `cross_hatching`. */
  function ReviseHatch(f: PSet, c: PSet): (r: PSet)
    ensures Elems(r) == HatchTarget(Elems(c), Elems(f))
    ensures r == c || (|Elems(c)| != 1 && Elems(r) < Elems(c))
  {
    if !IsSingleton(c) then
      var t := Subtract(c, f);
      SameOrSmaller(c, t);
      t
    else c
  }

  /** The body of the last loop of `lone_number`. */
  function ReviseLone(l: PSet, c: PSet): (r: PSet)
    ensures Elems(r) == LoneTarget(Elems(c), Elems(l))
    ensures r == c || (|Elems(c)| != 1 && Elems(r) < Elems(c))
  {
    if !IsSingleton(c) then
      var t := And(c, l);
      SameOrSmaller(c, t);
      if !Equals(t, Empty()) && !Equals(t, c) then t else c
    else c
  }

  /** The body of the inner loop of `n_possible`, for the group `x`. */
  function ReviseElim(x: PSet, c: PSet): (r: PSet)
    ensures Elems(r) == ElimTarget(Elems(c), Elems(x))
    ensures r == c || (|Elems(c)| != 1 && Elems(r) < Elems(c))
  {
    if !IsSingleton(c) && !Equals(x, c) then
      var t := Subtract(c, x);
      SameOrSmaller(c, t);
      t
    else c
  }

  /** A word whose colours are among those of `c` is `c` or has strictly fewer colours. */
  lemma SameOrSmaller(c: PSet, t: PSet)
    requires Elems(t) <= Elems(c)
    ensures t == c || Elems(t) < Elems(c)
  {
    EqualIff(t, c);
  }

  /** The last loop of a heuristic, from cell `i` on: the revised value of a cell is written back
      when it differs, and a write makes the result `false`. */
  function Rewrite(cur: seq<PSet>, rule: Rule, i: nat, result: bool): (p: Pass)
    requires i <= |cur|
    ensures Rewritten(cur, rule, i, result, p)
    decreases |cur| - i
  {
    if i == |cur| then Pass(cur, result)
    else
      var t := Revise(rule, cur[i]);
      if !Equals(t, cur[i]) then
        var p := Rewrite(cur[i := t], rule, i + 1, false);
        RewriteWrite(cur, rule, i, result, p);
        p
      else
        var p := Rewrite(cur, rule, i + 1, result);
        RewriteKeep(cur, rule, i, result, p);
        p
  }

  /** What `Rewrite` from cell `i` on computes: the cells before `i` are kept, every later cell
      gets its revised value, and the result stays `true` exactly when nothing changed. */
  ghost predicate Rewritten(cur: seq<PSet>, rule: Rule, i: nat, result: bool, p: Pass)
  {
    && |p.cells| == |cur|
    && (forall j | 0 <= j < i && j < |cur| :: p.cells[j] == cur[j])
    && (forall j | i <= j < |cur| :: p.cells[j] == Revise(rule, cur[j]))
    && (p.stable <==> result && p.cells == cur)
  }

  lemma RewriteKeep(cur: seq<PSet>, rule: Rule, i: nat, result: bool, p: Pass)
    requires i < |cur| && Revise(rule, cur[i]) == cur[i]
    requires Rewritten(cur, rule, i + 1, result, p)
    ensures Rewritten(cur, rule, i, result, p)
  {
    hide Revise;
    assert p.cells[i] == cur[i];
    forall j | i <= j < |cur| ensures p.cells[j] == Revise(rule, cur[j]) {
    }
  }

  /** A write at cell `i` followed by the rest of the loop. */
  lemma RewriteWrite(cur: seq<PSet>, rule: Rule, i: nat, result: bool, p: Pass)
    requires i < |cur| && Revise(rule, cur[i]) != cur[i]
    requires Rewritten(cur[i := Revise(rule, cur[i])], rule, i + 1, false, p)
    ensures Rewritten(cur, rule, i, result, p)
  {
    hide Revise;
    assert p.cells[i] != cur[i];
  }

  /** Rewriting the whole group shrinks it. */
  lemma RewriteShrinks(sub: seq<PSet>, rule: Rule, result: bool, p: Pass)
    requires Rewritten(sub, rule, 0, result, p)
    ensures Shrinks(View(sub), View(p.cells))
  {
    forall j | 0 <= j < |sub|
      ensures View(p.cells)[j] == View(sub)[j] || (|View(sub)[j]| != 1 && View(p.cells)[j] < View(sub)[j])
    {
      ViewAt(sub, j);
      ViewAt(p.cells, j);
    }
  }

  // ---------------------------------------------------------------------
  // cross_hatching
  // ---------------------------------------------------------------------

  /** `cross_hatching`: every cell that is not a singleton loses the colours placed in the group. */
  function CrossHatching(sub: seq<PSet>): (p: Pass)
    ensures |p.cells| == |sub|
    ensures forall j | 0 <= j < |sub| :: View(p.cells)[j] == HatchTarget(View(sub)[j], Placed(View(sub)))
    ensures p.stable <==> p.cells == sub
  {
    var placed := PlacedOf(sub, |sub|);
    assert View(sub)[..|sub|] == View(sub);
    var p := Rewrite(sub, Hatch(placed), 0, true);
    HatchView(sub, placed, p);
    p
  }

  lemma HatchView(sub: seq<PSet>, placed: PSet, p: Pass)
    requires Elems(placed) == Placed(View(sub))
    requires Rewritten(sub, Hatch(placed), 0, true, p)
    ensures forall j | 0 <= j < |sub| :: View(p.cells)[j] == HatchTarget(View(sub)[j], Placed(View(sub)))
  {
    forall j | 0 <= j < |sub| ensures View(p.cells)[j] == HatchTarget(View(sub)[j], Placed(View(sub))) {
      ViewAt(sub, j);
      ViewAt(p.cells, j);
    }
  }

  /** A filling of the group survives cross-hatching: a cell's colour is never placed elsewhere. */
  lemma HatchKeeps(S: seq<set<nat>>, T: seq<set<nat>>, vals: seq<nat>)
    requires |T| == |S| && forall j | 0 <= j < |S| :: T[j] == HatchTarget(S[j], Placed(S))
    requires Fits(S, vals) && Distinct(vals)
    ensures Fits(T, vals)
  {
    forall j | 0 <= j < |S| ensures vals[j] in T[j] {
      PlacedOwner(S, vals, vals[j]);
    }
  }

  /** A placed colour is the colour that the filling gives to the singleton cell holding it. */
  lemma PlacedOwner(S: seq<set<nat>>, vals: seq<nat>, c: nat)
    requires Fits(S, vals)
    ensures c in Placed(S) ==> exists m | 0 <= m < |S| :: |S[m]| == 1 && vals[m] == c
  {
    if c in Placed(S) {
      var m :| 0 <= m < |S| && c in S[m] && |S[m]| == 1;
      OneMember(S[m], c);
    }
  }

  // ---------------------------------------------------------------------
  // lone_number
  // ---------------------------------------------------------------------

  /** The number of cells allowing colour `c`. */
  ghost function Occ(S: seq<set<nat>>, c: nat): nat
  {
    if |S| == 0 then 0 else Occ(S[..|S| - 1], c) + (if c in S[|S| - 1] then 1 else 0)
  }

  /** The colours allowed by exactly one cell. */
  ghost function Once(S: seq<set<nat>>): set<nat>
  {
    set c | c in Union(S) && Occ(S, c) == 1
  }

  /** The colours allowed by two cells or more. */
  ghost function Twice(S: seq<set<nat>>): set<nat>
  {
    set c | c in Union(S) && Occ(S, c) >= 2
  }

  /** A colour no cell allows occurs nowhere. */
  lemma {:induction false} OccOutside(S: seq<set<nat>>, c: nat)
    requires c !in Union(S)
    ensures Occ(S, c) == 0
    decreases |S|
  {
    if |S| > 0 {
      var m := |S| - 1;
      UnionStep(S, m);
      assert S[..m + 1] == S;
      OccOutside(S[..m], c);
    }
  }

  /** Two different cells allowing `c` make it occur at least twice. */
  lemma {:induction false} OccTwo(S: seq<set<nat>>, c: nat, i: nat, k: nat)
    requires i < k < |S| && c in S[i] && c in S[k]
    ensures Occ(S, c) >= 2
    decreases |S|
  {
    var m := |S| - 1;
    if k < m {
      assert S[..m][i] == S[i] && S[..m][k] == S[k];
      OccTwo(S[..m], c, i, k);
    } else {
      assert S[..m][i] == S[i];
      OccOne(S[..m], c, i);
    }
  }

  lemma {:induction false} OccOne(S: seq<set<nat>>, c: nat, i: nat)
    requires i < |S| && c in S[i]
    ensures Occ(S, c) >= 1
    decreases |S|
  {
    var m := |S| - 1;
    if i < m {
      assert S[..m][i] == S[i];
      OccOne(S[..m], c, i);
    }
  }

  /** The colour sets of the cells are colours of the word. */
  ghost predicate InUniverse(S: seq<set<nat>>)
  {
    forall j | 0 <= j < |S| :: S[j] <= Universe
  }

  lemma ViewInUniverse(sub: seq<PSet>)
    ensures InUniverse(View(sub))
  {
    forall j | 0 <= j < |sub| ensures View(sub)[j] <= Universe {
      ViewAt(sub, j);
      ElemsInUniverse(sub[j]);
    }
  }

  /** The first loop of `lone_number` over the first `k` cells: the colours seen once, and the
      colours seen twice or more. */
  function LoneScan(sub: seq<PSet>, k: nat): (r: (PSet, PSet))
    requires k <= |sub|
    ensures Elems(r.0) == Once(View(sub)[..k])
    ensures Elems(r.1) == Twice(View(sub)[..k])
  {
    if k == 0 then
      assert Once(View(sub)[..0]) == {} && Twice(View(sub)[..0]) == {};
      (Empty(), Empty())
    else
      var prev := LoneScan(sub, k - 1);
      var x := sub[k - 1];
      ViewAt(sub, k - 1);
      ElemsInUniverse(x);
      ViewInUniverse(sub);
      LoneStep(View(sub), k - 1, Elems(prev.0), Elems(prev.1));
      (And(Xor(x, prev.0), Negate(prev.1)), Or(And(x, prev.0), prev.1))
  }

  /** One iteration of the first loop of `lone_number`, on sets. */
  lemma LoneStep(S: seq<set<nat>>, k: nat, L: set<nat>, M: set<nat>)
    requires k < |S| && InUniverse(S)
    requires L == Once(S[..k]) && M == Twice(S[..k])
    ensures ((S[k] - L) + (L - S[k])) * (Universe - M) == Once(S[..k + 1])
    ensures (S[k] * L) + M == Twice(S[..k + 1])
  {
    var P, Q := S[..k], S[..k + 1];
    assert Q[..k] == P && Q[k] == S[k];
    UnionStep(S, k);
    forall c ensures Occ(Q, c) == Occ(P, c) + (if c in S[k] then 1 else 0) {
    }
    forall c | c in Union(P) ensures c in Universe {
      var j :| 0 <= j < |P| && c in P[j];
      assert P[j] == S[j];
    }
    forall c | c !in Union(P) ensures Occ(P, c) == 0 {
      OccOutside(P, c);
    }
  }

  /** `lone_number`: a cell that holds colours no other cell allows, and other colours besides,
      keeps only the former. */
  function LoneNumber(sub: seq<PSet>): (p: Pass)
    ensures |p.cells| == |sub|
    ensures forall j | 0 <= j < |sub| :: View(p.cells)[j] == LoneTarget(View(sub)[j], Once(View(sub)))
    ensures p.stable <==> p.cells == sub
  {
    var scan := LoneScan(sub, |sub|);
    assert View(sub)[..|sub|] == View(sub);
    var p := Rewrite(sub, Lone(scan.0), 0, true);
    LoneView(sub, scan.0, p);
    p
  }

  lemma LoneView(sub: seq<PSet>, lone: PSet, p: Pass)
    requires Elems(lone) == Once(View(sub))
    requires Rewritten(sub, Lone(lone), 0, true, p)
    ensures forall j | 0 <= j < |sub| :: View(p.cells)[j] == LoneTarget(View(sub)[j], Once(View(sub)))
  {
    forall j | 0 <= j < |sub| ensures View(p.cells)[j] == LoneTarget(View(sub)[j], Once(View(sub))) {
      ViewAt(sub, j);
      ViewAt(p.cells, j);
    }
  }

  /** A filling of the group survives the lone-number rule: a colour only one cell allows must be
      that cell's colour. */
  lemma LoneKeeps(S: seq<set<nat>>, T: seq<set<nat>>, vals: seq<nat>)
    requires |T| == |S| && forall j | 0 <= j < |S| :: T[j] == LoneTarget(S[j], Once(S))
    requires Fits(S, vals) && Filling(vals) && Within(S)
    ensures Fits(T, vals)
  {
    forall j | 0 <= j < |S| ensures vals[j] in T[j] {
      if |S[j]| != 1 && S[j] * Once(S) != {} && S[j] * Once(S) != S[j] {
        var c :| c in S[j] * Once(S);
        assert c < |S|;
        FillingCovers(vals, c);
        var m :| 0 <= m < |vals| && vals[m] == c;
        if m < j {
          OccTwo(S, c, m, j);
        } else if j < m {
          OccTwo(S, c, j, m);
        }
      }
    }
  }

  // ---------------------------------------------------------------------
  // n_possible
  // ---------------------------------------------------------------------

  /** The positions of the cells equal to cell `i`. */
  ghost function Copies(S: seq<set<nat>>, i: nat): set<nat>
    requires i < |S|
  {
    set k: nat | k < |S| && S[k] == S[i]
  }

  lemma CopiesOf(sub: seq<PSet>, i: nat)
    requires i < |sub|
    ensures Copies(View(sub), i) == Holding(sub, sub[i])
  {
    forall k | 0 <= k < |sub| ensures View(sub)[k] == View(sub)[i] <==> sub[k] == sub[i] {
      ViewAt(sub, k);
      ViewAt(sub, i);
      EqualIff(sub[k], sub[i]);
    }
  }

  /** `n_possible` from cell `i` on: when the `k` colours of cell `i` fill exactly `k` cells, those
      colours are removed from every other cell that is not a singleton. */
  function NPossibleFrom(cur: seq<PSet>, i: nat, result: bool): (p: Pass)
    requires i <= |cur|
    ensures |p.cells| == |cur|
    ensures Shrinks(View(cur), View(p.cells))
    ensures p.stable <==> result && p.cells == cur
    ensures forall vals | Distinct(vals) :: Keeps(View(cur), View(p.cells), vals)
    decreases |cur| - i
  {
    if i == |cur| then Pass(cur, result)
    else if SubgridCount(cur, cur[i]) == Cardinality(cur[i]) then
      // The inner loop of `n_possible` reads cell `i` afresh at every step; `Revise` leaves a cell
      // equal to the group unchanged, so that cell keeps its value all along.
      var q := Rewrite(cur, Eliminate(cur[i]), 0, result);
      RewriteShrinks(cur, Eliminate(cur[i]), result, q);
      CopiesOf(cur, i);
      ViewAt(cur, i);
      ElimRewrite(cur, i, result, q);
      var p := NPossibleFrom(q.cells, i + 1, q.stable);
      ShrinksTrans(View(cur), View(q.cells), View(p.cells));
      ChangedStays(cur, q.cells, p.cells);
      p
    else
      NPossibleFrom(cur, i + 1, result)
  }

  lemma ElimRewrite(cur: seq<PSet>, i: nat, result: bool, q: Pass)
    requires i < |cur| && Rewritten(cur, Eliminate(cur[i]), 0, result, q)
    requires |Copies(View(cur), i)| == |View(cur)[i]|
    ensures forall vals | Distinct(vals) :: Keeps(View(cur), View(q.cells), vals)
  {
    var S, T := View(cur), View(q.cells);
    forall j | 0 <= j < |cur| ensures T[j] == ElimTarget(S[j], S[i]) {
      ViewAt(cur, j);
      ViewAt(q.cells, j);
      ViewAt(cur, i);
    }
    forall vals | Distinct(vals) ensures Keeps(S, T, vals) {
      if Fits(S, vals) {
        ElimKeeps(S, T, i, vals);
      }
    }
  }

  /** A filling of the group survives the n-possible rule: `k` cells that allow only the same `k`
      colours use up all of them. */
  lemma ElimKeeps(S: seq<set<nat>>, T: seq<set<nat>>, i: nat, vals: seq<nat>)
    requires i < |S| && |T| == |S| && forall j | 0 <= j < |S| :: T[j] == ElimTarget(S[j], S[i])
    requires |Copies(S, i)| == |S[i]|
    requires Fits(S, vals) && Distinct(vals)
    ensures Fits(T, vals)
  {
    var I := Copies(S, i);
    ImageCard(vals, I);
    assert Image(vals, I) <= S[i];
    SubsetFull(Image(vals, I), S[i]);
    forall j | 0 <= j < |S| ensures vals[j] in T[j] {
      if vals[j] in S[i] {
        var k :| k in I && k < |vals| && vals[k] == vals[j];
        assert k == j;
      }
    }
  }

  /** A change that later shrinking keeps is still a change. */
  lemma ChangedStays(a: seq<PSet>, b: seq<PSet>, c: seq<PSet>)
    requires |b| == |a| && |c| == |a|
    requires Shrinks(View(a), View(b)) && Shrinks(View(b), View(c))
    ensures b != a ==> c != a
  {
    if View(b) == View(a) {
      ViewInjective(a, b);
    }
    ShrinksSum(View(a), View(b));
    ShrinksSum(View(b), View(c));
  }

  /** `n_possible`. */
  function NPossible(sub: seq<PSet>): (p: Pass)
    ensures |p.cells| == |sub|
    ensures Shrinks(View(sub), View(p.cells))
    ensures p.stable <==> p.cells == sub
    ensures forall vals | Distinct(vals) :: Keeps(View(sub), View(p.cells), vals)
  {
    NPossibleFrom(sub, 0, true)
  }

  /** Cell `k` triggers the n-possible rule: exactly as many cells equal it as it has colours. */
  predicate Fires(cur: seq<PSet>, k: nat)
    requires k < |cur|
  {
    SubgridCount(cur, cur[k]) == Cardinality(cur[k])
  }

  /** Cells that do not trigger the rule are passed over without effect. */
  lemma {:induction false} NPossibleSkip(cur: seq<PSet>, i: nat, k: nat, result: bool)
    requires i <= k <= |cur|
    requires forall m | i <= m < k :: !Fires(cur, m)
    ensures NPossibleFrom(cur, i, result) == NPossibleFrom(cur, k, result)
    decreases k - i
  {
    hide *;
    if i < k {
      NPossibleStep(cur, i, result);
      NPossibleSkip(cur, i + 1, k, result);
    }
  }

  /** A cell that does not trigger the rule is passed over. */
  lemma NPossibleStep(cur: seq<PSet>, i: nat, result: bool)
    requires i < |cur| && !Fires(cur, i)
    ensures NPossibleFrom(cur, i, result) == NPossibleFrom(cur, i + 1, result)
  {
  }

  /** When no cell triggers the rule, `n_possible` changes nothing and returns `true`. */
  lemma NPossibleQuiet(sub: seq<PSet>)
    requires forall k | 0 <= k < |sub| :: !Fires(sub, k)
    ensures NPossible(sub) == Pass(sub, true)
  {
    NPossibleSkip(sub, 0, |sub|, true);
  }

  /** The first cell `i0` that triggers the rule strips its colours from every cell that is neither
      a singleton nor equal to it; later cells can only remove more. */
  lemma NPossibleFirst(sub: seq<PSet>, i0: nat)
    requires i0 < |sub| && Fires(sub, i0)
    requires forall k | 0 <= k < i0 :: !Fires(sub, k)
    ensures forall j | 0 <= j < |sub| && |View(sub)[j]| != 1 && sub[j] != sub[i0] ::
              View(NPossible(sub).cells)[j] <= View(sub)[j] - View(sub)[i0]
  {
    NPossibleSkip(sub, 0, i0, true);
    var q := Rewrite(sub, Eliminate(sub[i0]), 0, true);
    NPossibleAt(sub, i0, true);
    var p := NPossibleFrom(q.cells, i0 + 1, q.stable);
    forall j | 0 <= j < |sub| && |View(sub)[j]| != 1 && sub[j] != sub[i0]
      ensures View(p.cells)[j] <= View(sub)[j] - View(sub)[i0]
    {
      ElimCell(sub, i0, q, j);
    }
  }

  /** A cell that triggers the rule rewrites the group, and the scan goes on from the next cell. */
  lemma NPossibleAt(cur: seq<PSet>, i: nat, result: bool)
    requires i < |cur| && Fires(cur, i)
    ensures var q := Rewrite(cur, Eliminate(cur[i]), 0, result);
            NPossibleFrom(cur, i, result) == NPossibleFrom(q.cells, i + 1, q.stable)
  {
  }

  /** The rewrite for group `X` takes `X`'s colours out of a cell that is neither a singleton nor `X`. */
  lemma ElimCell(sub: seq<PSet>, i0: nat, q: Pass, j: nat)
    requires i0 < |sub| && j < |sub| && Rewritten(sub, Eliminate(sub[i0]), 0, true, q)
    requires |View(sub)[j]| != 1 && sub[j] != sub[i0]
    ensures View(q.cells)[j] == View(sub)[j] - View(sub)[i0]
  {
    ViewAt(sub, j);
    ViewAt(sub, i0);
    ViewAt(q.cells, j);
    EqualIff(sub[j], sub[i0]);
  }

  // ---------------------------------------------------------------------
  // subgrid_heuristics
  // ---------------------------------------------------------------------

  /** The entries of the table of heuristics. */
  datatype Heuristic = CrossHatchingRule | LoneNumberRule | NPossibleRule

  /** The table of heuristics, in the order `subgrid_heuristics` applies them. */
  const HeuristicTable: seq<Heuristic> := [CrossHatchingRule, LoneNumberRule, NPossibleRule]

  /** The heuristics keep a group's filling only when it uses every colour below the side. */
  ghost predicate Admissible(S: seq<set<nat>>, vals: seq<nat>)
  {
    Fits(S, vals) && Filling(vals) && Within(S)
  }

  /** One heuristic of the table. */
  function Apply(h: Heuristic, sub: seq<PSet>): (p: Pass)
    ensures |p.cells| == |sub|
    ensures Shrinks(View(sub), View(p.cells))
    ensures p.stable <==> p.cells == sub
    ensures forall vals | Admissible(View(sub), vals) :: Fits(View(p.cells), vals)
  {
    match h
    case CrossHatchingRule =>
      var p := CrossHatching(sub);
      HatchAdmits(View(sub), View(p.cells));
      p
    case LoneNumberRule =>
      var p := LoneNumber(sub);
      LoneAdmits(View(sub), View(p.cells));
      p
    case NPossibleRule =>
      var p := NPossible(sub);
      KeepsAdmits(View(sub), View(p.cells));
      p
  }

  lemma HatchAdmits(S: seq<set<nat>>, T: seq<set<nat>>)
    requires |T| == |S| && forall j | 0 <= j < |S| :: T[j] == HatchTarget(S[j], Placed(S))
    ensures Shrinks(S, T)
    ensures forall vals | Admissible(S, vals) :: Fits(T, vals)
  {
    forall vals | Admissible(S, vals) ensures Fits(T, vals) {
      HatchKeeps(S, T, vals);
    }
  }

  lemma LoneAdmits(S: seq<set<nat>>, T: seq<set<nat>>)
    requires |T| == |S| && forall j | 0 <= j < |S| :: T[j] == LoneTarget(S[j], Once(S))
    ensures Shrinks(S, T)
    ensures forall vals | Admissible(S, vals) :: Fits(T, vals)
  {
    forall vals | Admissible(S, vals) ensures Fits(T, vals) {
      LoneKeeps(S, T, vals);
    }
  }

  lemma KeepsAdmits(S: seq<set<nat>>, T: seq<set<nat>>)
    requires forall vals | Distinct(vals) :: Keeps(S, T, vals)
    ensures forall vals | Admissible(S, vals) :: Fits(T, vals)
  {
    forall vals | Admissible(S, vals) ensures Fits(T, vals) {
      assert Keeps(S, T, vals);
    }
  }

  /** The loop of `subgrid_heuristics` from entry `k` of the table on: every heuristic runs, and
      the results are combined with a non-short-circuit `&`. */
  function HeuristicsFrom(sub: seq<PSet>, k: nat, result: bool): (p: Pass)
    requires k <= |HeuristicTable|
    ensures |p.cells| == |sub|
    ensures Shrinks(View(sub), View(p.cells))
    ensures p.stable <==> result && p.cells == sub
    ensures forall vals | Admissible(View(sub), vals) :: Fits(View(p.cells), vals)
    decreases |HeuristicTable| - k
  {
    if k == |HeuristicTable| then Pass(sub, result)
    else
      var q := Apply(HeuristicTable[k], sub);
      var p := HeuristicsFrom(q.cells, k + 1, result && q.stable);
      ShrinksTrans(View(sub), View(q.cells), View(p.cells));
      ChangedStays(sub, q.cells, p.cells);
      AdmissibleAfter(View(sub), View(q.cells), View(p.cells));
      p
  }

  /** Shrinking keeps a group within the side, so a filling admitted before a heuristic is still
      admitted after it. */
  lemma AdmissibleAfter(S: seq<set<nat>>, T: seq<set<nat>>, U: seq<set<nat>>)
    requires Shrinks(S, T)
    requires forall vals | Admissible(S, vals) :: Fits(T, vals)
    requires forall vals | Admissible(T, vals) :: Fits(U, vals)
    ensures forall vals | Admissible(S, vals) :: Fits(U, vals)
  {
    forall vals | Admissible(S, vals) ensures Fits(U, vals) {
      assert Within(T);
      assert Admissible(T, vals);
    }
  }

  /** `subgrid_heuristics`. */
  function SubgridHeuristics(sub: seq<PSet>): (p: Pass)
    ensures |p.cells| == |sub|
    ensures Shrinks(View(sub), View(p.cells))
    ensures p.stable <==> p.cells == sub
    ensures forall vals | Admissible(View(sub), vals) :: Fits(View(p.cells), vals)
  {
    HeuristicsFrom(sub, 0, true)
  }
}
