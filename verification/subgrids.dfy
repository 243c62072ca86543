/**
 * One group of a grid (a row, a column or a block), seen through the array of
 * cell pointers `subgrid_map` hands to each group function: the cells are a
 * sequence of candidate sets whose length is the grid side.
 *
 * This module holds what the group functions share: the notion of a filling
 * (one colour per cell, all different, all below the side), `subgrid_count`
 * and `subgrid_consistency`. Properties are stated on `View(sub)`, the
 * sequence of the cells' colour sets, so that reasoning about groups stays
 * apart from reasoning about machine words.
 */
module Subgrids {
  import opened PSets

  /** The colour sets of the cells. */
  ghost function View(sub: seq<PSet>): (S: seq<set<nat>>)
    ensures |S| == |sub|
  {
    seq(|sub|, i requires 0 <= i < |sub| => Elems(sub[i]))
  }

  lemma ViewAt(sub: seq<PSet>, i: nat)
    requires i < |sub|
    ensures View(sub)[i] == Elems(sub[i])
  {
  }

  // ---------------------------------------------------------------------
  // Fillings
  // ---------------------------------------------------------------------

  /** No colour is picked twice. */
  ghost predicate Distinct(vals: seq<nat>)
  {
    forall i, j | 0 <= i < |vals| && 0 <= j < |vals| && i != j :: vals[i] != vals[j]
  }

  /** A complete, legal group: `|vals|` different colours, each below `|vals|`. */
  ghost predicate Filling(vals: seq<nat>)
  {
    && (forall i | 0 <= i < |vals| :: vals[i] < |vals|)
    && Distinct(vals)
  }

  /** `vals` picks, in every cell, one of the cell's candidates. */
  ghost predicate Fits(S: seq<set<nat>>, vals: seq<nat>)
  {
    && |vals| == |S|
    && forall i | 0 <= i < |S| :: vals[i] in S[i]
  }

  /** No cell holds a colour at or above the side of the grid. */
  ghost predicate Within(S: seq<set<nat>>)
  {
    forall i | 0 <= i < |S| :: S[i] <= RangeSet(|S|)
  }

  /** The colours `vals` picks on the positions `I`. */
  ghost function Image(vals: seq<nat>, I: set<nat>): set<nat>
  {
    set i | i in I && i < |vals| :: vals[i]
  }

  /** Distinct picks on `k` positions are `k` colours. */
  lemma {:induction false} ImageCard(vals: seq<nat>, I: set<nat>)
    requires Distinct(vals)
    requires forall i | i in I :: i < |vals|
    ensures |Image(vals, I)| == |I|
    decreases |I|
  {
    if I != {} {
      var x :| x in I;
      ImageCard(vals, I - {x});
      assert Image(vals, I) == Image(vals, I - {x}) + {vals[x]};
      assert vals[x] !in Image(vals, I - {x});
    }
  }

  /** A subset as large as its superset is the whole of it. */
  lemma SubsetFull<T>(A: set<T>, B: set<T>)
    requires A <= B && |A| == |B|
    ensures A == B
  {
    assert B == A + (B - A);
    assert |B - A| == 0;
  }

  /** Pigeonhole: a filling uses every colour below the side. */
  lemma FillingCovers(vals: seq<nat>, c: nat)
    requires Filling(vals) && c < |vals|
    ensures exists m | 0 <= m < |vals| :: vals[m] == c
  {
    var n := |vals|;
    ImageCard(vals, RangeSet(n));
    RangeSetCard(n);
    SubsetFull(Image(vals, RangeSet(n)), RangeSet(n));
    assert c in Image(vals, RangeSet(n));
  }

  /** The one member of a one-colour set. */
  lemma OneMember(S: set<nat>, x: nat)
    requires |S| == 1 && x in S
    ensures S == {x}
  {
    if y :| y in S && y != x {
      SubsetCard({x, y}, S);
    }
  }

  // ---------------------------------------------------------------------
  // subgrid_count
  // ---------------------------------------------------------------------

  /** `subgrid_count`: the number of cells equal to `p`. */
  function SubgridCount(sub: seq<PSet>, p: PSet): (r: nat)
    ensures r == |Holding(sub, p)|
    decreases |sub|
  {
    if |sub| == 0 then
      assert Holding(sub, p) == {};
      0
    else
      var m := |sub| - 1;
      HoldingStep(sub, p);
      EqualIff(sub[m], p);
      SubgridCount(sub[..m], p) + (if Equals(sub[m], p) then 1 else 0)
  }

  /** The positions of the cells equal to `p`. */
  ghost function Holding(sub: seq<PSet>, p: PSet): set<nat>
  {
    set i: nat | i < |sub| && sub[i] == p
  }

  lemma HoldingStep(sub: seq<PSet>, p: PSet)
    requires |sub| > 0
    ensures Holding(sub, p) == Holding(sub[..|sub| - 1], p) + (if sub[|sub| - 1] == p then {|sub| - 1} else {})
    ensures |Holding(sub, p)| == |Holding(sub[..|sub| - 1], p)| + (if sub[|sub| - 1] == p then 1 else 0)
  {
    var m := |sub| - 1;
    assert m !in Holding(sub[..m], p);
    assert Holding(sub, p) == Holding(sub[..m], p) + (if sub[m] == p then {m} else {});
  }

  // ---------------------------------------------------------------------
  // Colours of the cells
  // ---------------------------------------------------------------------

  /** Every colour some cell still allows. */
  ghost function Union(S: seq<set<nat>>): set<nat>
  {
    set i, c | 0 <= i < |S| && c in S[i] :: c
  }

  /** The colours of the singleton cells: the colours already placed. */
  ghost function Placed(S: seq<set<nat>>): set<nat>
  {
    set i, c | 0 <= i < |S| && c in S[i] && |S[i]| == 1 :: c
  }

  lemma UnionStep(S: seq<set<nat>>, k: nat)
    requires k < |S|
    ensures Union(S[..k + 1]) == Union(S[..k]) + S[k]
  {
    var T := S[..k + 1];
    assert T[..k] == S[..k];
    forall c | c in Union(T) ensures c in Union(S[..k]) + S[k] {
      var i :| 0 <= i < |T| && c in T[i];
      if i < k {
        assert S[..k][i] == T[i];
      }
    }
    forall c | c in Union(S[..k]) ensures c in Union(T) {
      var i :| 0 <= i < k && c in S[..k][i];
      assert T[i] == S[..k][i];
    }
    assert T[k] == S[k];
  }

  lemma PlacedStep(S: seq<set<nat>>, k: nat)
    requires k < |S|
    ensures Placed(S[..k + 1]) == Placed(S[..k]) + (if |S[k]| == 1 then S[k] else {})
  {
    var T := S[..k + 1];
    forall c | c in Placed(T) ensures c in Placed(S[..k]) + (if |S[k]| == 1 then S[k] else {}) {
      var i :| 0 <= i < |T| && c in T[i] && |T[i]| == 1;
      if i < k {
        assert S[..k][i] == T[i];
      }
    }
    forall c | c in Placed(S[..k]) ensures c in Placed(T) {
      var i :| 0 <= i < k && c in S[..k][i] && |S[..k][i]| == 1;
      assert T[i] == S[..k][i];
    }
    assert T[k] == S[k];
  }

  /** The union of the first `k` cells (the first loop of `subgrid_consistency`). */
  function ColorsOf(sub: seq<PSet>, k: nat): (r: PSet)
    requires k <= |sub|
    ensures Elems(r) == Union(View(sub)[..k])
  {
    if k == 0 then Empty()
    else
      UnionStep(View(sub), k - 1);
      ViewAt(sub, k - 1);
      Or(sub[k - 1], ColorsOf(sub, k - 1))
  }

  /** The union of the singleton cells among the first `k` (the first loop of `cross_hatching`). */
  function PlacedOf(sub: seq<PSet>, k: nat): (r: PSet)
    requires k <= |sub|
    ensures Elems(r) == Placed(View(sub)[..k])
  {
    if k == 0 then Empty()
    else
      PlacedStep(View(sub), k - 1);
      ViewAt(sub, k - 1);
      assert View(sub)[..k - 1] == View(sub)[..k][..k - 1];
      if IsSingleton(sub[k - 1]) then Or(PlacedOf(sub, k - 1), sub[k - 1])
      else PlacedOf(sub, k - 1)
  }

  // ---------------------------------------------------------------------
  // subgrid_consistency
  // ---------------------------------------------------------------------

  /** Two different singleton cells never hold the same colour. */
  ghost predicate NoTwins(S: seq<set<nat>>)
  {
    forall i, j | 0 <= i < |S| && 0 <= j < |S| && i != j ::
      |S[i]| == 1 && |S[j]| == 1 ==> S[i] != S[j]
  }

  /** No cell has run out of candidates. */
  ghost predicate NoEmpty(S: seq<set<nat>>)
  {
    forall i | 0 <= i < |S| :: S[i] != {}
  }

  /** A group can still be completed as far as it alone can tell: every colour below the side is
      still somewhere and no other colour is, no colour is placed twice, and no cell is empty. */
  ghost predicate GroupConsistent(S: seq<set<nat>>)
  {
    && Union(S) == RangeSet(|S|)
    && NoTwins(S)
    && NoEmpty(S)
  }

  /** `subgrid_consistency`. */
  function SubgridConsistency(sub: seq<PSet>): (r: bool)
    requires 1 <= |sub| <= MaxColors
    ensures r <==> GroupConsistent(View(sub))
  {
    var n := |sub|;
    assert View(sub)[..n] == View(sub);
    var r1 := Equals(ColorsOf(sub, n), FullRange(n));
    assert View(sub)[..0] == [];
    var r2 := r1 && TwinFree(sub, 0, Empty());
    r2 && AllNonEmpty(sub, 0)
  }

  /** The second loop of `subgrid_consistency` from cell `i` on, `seen` holding the colours of
      the singleton cells before `i`. */
  function TwinFree(sub: seq<PSet>, i: nat, seen: PSet): (r: bool)
    requires i <= |sub|
    requires Elems(seen) == Placed(View(sub)[..i]) && NoTwins(View(sub)[..i])
    ensures r <==> NoTwins(View(sub))
    decreases |sub| - i
  {
    if i == |sub| then
      assert View(sub)[..i] == View(sub);
      true
    else
      ViewAt(sub, i);
      TwinStep(View(sub), i, Elems(seen));
      if IsSingleton(sub[i]) then
        if IsIncluded(sub[i], seen) then false
        else TwinFree(sub, i + 1, Or(sub[i], seen))
      else TwinFree(sub, i + 1, seen)
  }

  /** One iteration of the second loop of `subgrid_consistency`. */
  lemma TwinStep(S: seq<set<nat>>, i: nat, seen: set<nat>)
    requires i < |S| && seen == Placed(S[..i]) && NoTwins(S[..i])
    ensures |S[i]| == 1 && S[i] <= seen ==> !NoTwins(S)
    ensures |S[i]| == 1 && !(S[i] <= seen) ==> S[i] + seen == Placed(S[..i + 1]) && NoTwins(S[..i + 1])
    ensures |S[i]| != 1 ==> seen == Placed(S[..i + 1]) && NoTwins(S[..i + 1])
  {
    PlacedStep(S, i);
    if |S[i]| == 1 {
      if S[i] <= seen {
        TwinBefore(S, i);
      } else {
        NoTwinAfter(S, i);
      }
    } else {
      NoTwinAfterPlain(S, i);
    }
  }

  /** A singleton cell whose colour is already placed before it has a twin. */
  lemma TwinBefore(S: seq<set<nat>>, i: nat)
    requires i < |S| && |S[i]| == 1 && S[i] <= Placed(S[..i])
    ensures !NoTwins(S)
  {
    var c :| c in S[i];
    assert c in Placed(S[..i]);
    var j :| 0 <= j < i && c in S[..i][j] && |S[..i][j]| == 1;
    assert S[j] == S[..i][j];
    OneMember(S[i], c);
    OneMember(S[j], c);
  }

  /** A singleton cell whose colour is not yet placed extends a twin-free prefix. */
  lemma NoTwinAfter(S: seq<set<nat>>, i: nat)
    requires i < |S| && |S[i]| == 1 && !(S[i] <= Placed(S[..i]))
    requires NoTwins(S[..i])
    ensures NoTwins(S[..i + 1])
  {
    var T := S[..i + 1];
    forall a, b | 0 <= a < |T| && 0 <= b < |T| && a != b && |T[a]| == 1 && |T[b]| == 1
      ensures T[a] != T[b]
    {
      if a < i && b < i {
        assert T[a] == S[..i][a] && T[b] == S[..i][b];
      } else {
        var j := if a < i then a else b;
        assert T[j] == S[..i][j];
        var c :| c in T[j];
        assert c in Placed(S[..i]);
        OneMember(T[j], c);
      }
    }
  }

  /** A cell that is not a singleton extends a twin-free prefix. */
  lemma NoTwinAfterPlain(S: seq<set<nat>>, i: nat)
    requires i < |S| && |S[i]| != 1 && NoTwins(S[..i])
    ensures NoTwins(S[..i + 1])
  {
    var T := S[..i + 1];
    forall a, b | 0 <= a < |T| && 0 <= b < |T| && a != b && |T[a]| == 1 && |T[b]| == 1
      ensures T[a] != T[b]
    {
      assert T[a] == S[..i][a] && T[b] == S[..i][b];
    }
  }

  /** The third loop of `subgrid_consistency` from cell `i` on. */
  function AllNonEmpty(sub: seq<PSet>, i: nat): (r: bool)
    requires i <= |sub|
    ensures r <==> forall j | i <= j < |sub| :: View(sub)[j] != {}
    decreases |sub| - i
  {
    if i == |sub| then true
    else
      EqualIff(sub[i], Empty());
      ViewAt(sub, i);
      !Equals(sub[i], Empty()) && AllNonEmpty(sub, i + 1)
  }

  /** A group that a filling fits, and that holds no colour beyond the side, is consistent. */
  lemma ConsistentIfFilled(S: seq<set<nat>>, vals: seq<nat>)
    requires Fits(S, vals) && Filling(vals) && Within(S)
    ensures GroupConsistent(S)
  {
    UnionIfFilled(S, vals);
    NoTwinsIfFilled(S, vals);
  }

  lemma UnionIfFilled(S: seq<set<nat>>, vals: seq<nat>)
    requires Fits(S, vals) && Filling(vals) && Within(S)
    ensures Union(S) == RangeSet(|S|)
  {
    forall c | c in RangeSet(|S|) ensures c in Union(S) {
      FillingCovers(vals, c);
      var m :| 0 <= m < |S| && vals[m] == c;
      assert c in S[m];
    }
  }

  lemma NoTwinsIfFilled(S: seq<set<nat>>, vals: seq<nat>)
    requires Fits(S, vals) && Distinct(vals)
    ensures NoTwins(S)
  {
    forall i, j | 0 <= i < |S| && 0 <= j < |S| && i != j && |S[i]| == 1 && |S[j]| == 1
      ensures S[i] != S[j]
    {
      OneMember(S[i], vals[i]);
      OneMember(S[j], vals[j]);
    }
  }

  /** The colours of a group whose cells are all singletons. */
  ghost function Values(S: seq<set<nat>>): (vals: seq<nat>)
    requires forall i | 0 <= i < |S| :: |S[i]| == 1
    ensures |vals| == |S|
  {
    seq(|S|, i requires 0 <= i < |S| => MinOf(S[i]))
  }

  /** A consistent group of singletons spells out a filling. */
  lemma FilledIfConsistent(S: seq<set<nat>>)
    requires forall i | 0 <= i < |S| :: |S[i]| == 1
    requires GroupConsistent(S)
    ensures Fits(S, Values(S)) && Filling(Values(S))
  {
    var vals := Values(S);
    forall i | 0 <= i < |S| ensures vals[i] in S[i] && vals[i] < |S| {
      assert vals[i] in Union(S);
    }
    forall i, j | 0 <= i < |S| && 0 <= j < |S| && i != j ensures vals[i] != vals[j] {
      OneMember(S[i], vals[i]);
      OneMember(S[j], vals[j]);
    }
  }
}
