/**
 * Grid geometry.
 *
 * The source stores a grid as `grid_size` rows of `grid_size` preemptive
 * sets and walks it group by group through arrays of cell pointers. Here a
 * grid is one sequence read row by row, so cell `(i, j)` of a grid of side
 * `n` is at index `i * n + j` (the encoding `grid_choice` already uses), and
 * a group is the sequence of the flat indices its pointers designate.
 */
module Grids {
  import opened PSets

  type Grid = seq<PSet>

  /** The flat index of cell `(i, j)`. */
  function Cell(n: nat, i: nat, j: nat): nat
  {
    i * n + j
  }

  /** The sides `grid_valid_size` accepts, in the order it tries them. */
  const ValidSizes: seq<int> := [1, 4, 9, 16, 25, 36, 49, 64]

  function Sq(b: int): int
  {
    b * b
  }

  /** A side is valid when it is the square of a block side from 1 to 8. */
  ghost predicate IsSquareSide(n: int)
  {
    exists b | 1 <= b <= 8 :: n == Sq(b)
  }

  /** `grid_valid_size`: the scan of the table of valid sides. */
  function GridValidSize(size: int): (r: bool)
    ensures r <==> IsSquareSide(size)
    ensures r <==> size in ValidSizes
  {
    SquareSidesAre(size);
    ScanSizes(size, 0)
  }

  /** The scan from position `i` of the table on. */
  function ScanSizes(size: int, i: nat): (r: bool)
    requires i <= |ValidSizes|
    ensures r <==> size in ValidSizes[i..]
    decreases |ValidSizes| - i
  {
    if i == |ValidSizes| then false
    else if size == ValidSizes[i] then true
    else ScanSizes(size, i + 1)
  }

  lemma SquareSidesAre(n: int)
    ensures IsSquareSide(n) <==> n in ValidSizes
  {
    SideTable();
    if n in ValidSizes {
      var i :| 0 <= i < |ValidSizes| && ValidSizes[i] == n;
      assert n == Sq(i + 1);
    }
    if IsSquareSide(n) {
      var b :| 1 <= b <= 8 && n == Sq(b);
      assert ValidSizes[b - 1] == n;
    }
  }

  /** Entry `i` of the table of valid sides is the square of `i + 1`. */
  lemma SideTable()
    ensures forall i | 0 <= i < |ValidSizes| :: ValidSizes[i] == Sq(i + 1)
  {
  }

  /** A valid side: a square of a block side, at most `MAX_COLORS`. */
  predicate ValidSize(n: nat)
  {
    n in ValidSizes
  }

  lemma ValidSizeBounds(n: nat)
    requires ValidSize(n)
    ensures 1 <= n <= MaxColors
  {
  }

  /** The block side: the exact square root of a valid side (`(int)sqrt(grid_size)`). */
  function BlockSize(n: nat): (b: nat)
    requires ValidSize(n)
    ensures 1 <= b <= 8 && b * b == n
  {
    RootFrom(n, 1)
  }

  /** The search behind `BlockSize`, from the side table's entry for `b` on. */
  function RootFrom(n: nat, b: nat): (r: nat)
    requires 1 <= b <= 8 && n in ValidSizes[b - 1..]
    ensures b <= r <= 8 && r * r == n
    decreases 8 - b
  {
    SideTable();
    if ValidSizes[b - 1] == n then
      assert Sq(b) == n;
      b
    else RootFrom(n, b + 1)
  }

  // ---------------------------------------------------------------------
  // Index arithmetic
  // ---------------------------------------------------------------------

  /** A whole multiple more: `a < b` leaves room for `n` between `a * n` and `b * n`. */
  lemma {:induction false} MulLess(a: nat, b: nat, n: nat)
    ensures a < b ==> a * n + n <= b * n
    decreases if a < b then b - a else 0
  {
    if a < b {
      assert (a + 1) * n == a * n + n;
      MulLess(a + 1, b, n);
    }
  }

  lemma MulAtMost(a: nat, b: nat, n: nat)
    ensures a <= b ==> a * n <= b * n
  {
    MulLess(a, b, n);
  }

  /** Quotient and remainder are unique. */
  lemma DivUnique(k: nat, b: nat, t: nat, q: nat)
    requires b > 0 && q < b && k == t * b + q
    ensures k / b == t && k % b == q
  {
    var t', q' := k / b, k % b;
    assert k == t' * b + q';
    MulLess(t, t', b);
    MulLess(t', t, b);
  }

  /** An index below `m * b` has a quotient below `m`. */
  lemma DivBelow(k: nat, b: nat, m: nat)
    requires b > 0 && k < m * b
    ensures k / b < m
  {
    assert (k / b) * b + k % b == k;
    MulAtMost(m, k / b, b);
  }

  /** The flat index of a cell of the grid is below `n * n` ... */
  lemma CellBound(n: nat, i: nat, j: nat)
    requires i < n && j < n
    ensures Cell(n, i, j) < n * n
  {
    MulLess(i, n, n);
  }

  /** ... and it determines the cell. */
  lemma CellCoords(n: nat, i: nat, j: nat)
    requires j < n
    ensures Cell(n, i, j) / n == i && Cell(n, i, j) % n == j
  {
    DivUnique(Cell(n, i, j), n, i, j);
  }

  lemma CellInjective(n: nat, i1: nat, j1: nat, i2: nat, j2: nat)
    requires j1 < n && j2 < n && Cell(n, i1, j1) == Cell(n, i2, j2)
    ensures i1 == i2 && j1 == j2
  {
    CellCoords(n, i1, j1);
    CellCoords(n, i2, j2);
  }

  /** Block `(bi, bj)`'s cell `k` is inside the grid ... */
  lemma BlockCellIn(b: nat, bi: nat, bj: nat, k: nat)
    requires b > 0 && bi < b && bj < b && k < b * b
    ensures BlockRow(b, bi, k) < b * b && BlockCol(b, bj, k) < b * b
  {
    DivBelow(k, b, b);
    MulLess(bi, b, b);
    MulLess(bj, b, b);
  }

  /** ... and different offsets are different cells of the block. */
  lemma BlockCellInjective(b: nat, bi: nat, bj: nat, k1: nat, k2: nat)
    requires b > 0
    requires BlockRow(b, bi, k1) == BlockRow(b, bi, k2) && BlockCol(b, bj, k1) == BlockCol(b, bj, k2)
    ensures k1 == k2
  {
    assert k1 == (k1 / b) * b + k1 % b;
    assert k2 == (k2 / b) * b + k2 % b;
  }

  // ---------------------------------------------------------------------
  // Groups
  // ---------------------------------------------------------------------

  /** Row `i`: the cells `(i, 0) .. (i, n - 1)`. */
  function Row(n: nat, i: nat): seq<nat>
  {
    seq(n, k requires 0 <= k < n => Cell(n, i, k))
  }

  /** Column `j`: the cells `(0, j) .. (n - 1, j)`. */
  function Col(n: nat, j: nat): seq<nat>
  {
    seq(n, k requires 0 <= k < n => Cell(n, k, j))
  }

  /** Block `(bi, bj)` of side `b`: cell `k` is at `(bi * b + k / b, bj * b + k % b)`. */
  function Block(n: nat, b: nat, bi: nat, bj: nat): seq<nat>
    requires b > 0
  {
    seq(n, k requires 0 <= k < n => Cell(n, BlockRow(b, bi, k), BlockCol(b, bj, k)))
  }

  function BlockRow(b: nat, bi: nat, k: nat): nat
    requires b > 0
  {
    bi * b + k / b
  }

  function BlockCol(b: nat, bj: nat, k: nat): nat
    requires b > 0
  {
    bj * b + k % b
  }

  /** The groups in the order `subgrid_map` visits them: the rows, the columns, then the blocks row by row. */
  function Groups(n: nat): (gs: seq<seq<nat>>)
    requires ValidSize(n)
    ensures |gs| == 3 * n
  {
    var b := BlockSize(n);
    seq(n, i requires 0 <= i < n => Row(n, i))
    + seq(n, j requires 0 <= j < n => Col(n, j))
    + seq(n, t requires 0 <= t < n => Block(n, b, t / b, t % b))
  }

  /** A group of a grid of side `n`: `n` distinct cells of the grid. */
  ghost predicate GroupOK(n: nat, grp: seq<nat>)
  {
    && |grp| == n
    && (forall k | 0 <= k < n :: grp[k] < n * n)
    && (forall k1, k2 | 0 <= k1 < n && 0 <= k2 < n && k1 != k2 :: grp[k1] != grp[k2])
  }

  lemma RowOK(n: nat, i: nat)
    requires i < n
    ensures GroupOK(n, Row(n, i))
  {
    forall k | 0 <= k < n ensures Row(n, i)[k] < n * n {
      CellBound(n, i, k);
    }
    forall k1, k2 | 0 <= k1 < n && 0 <= k2 < n && k1 != k2
      ensures Row(n, i)[k1] != Row(n, i)[k2]
    {
      if Row(n, i)[k1] == Row(n, i)[k2] {
        CellInjective(n, i, k1, i, k2);
      }
    }
  }

  lemma ColOK(n: nat, j: nat)
    requires j < n
    ensures GroupOK(n, Col(n, j))
  {
    forall k | 0 <= k < n ensures Col(n, j)[k] < n * n {
      CellBound(n, k, j);
    }
    forall k1, k2 | 0 <= k1 < n && 0 <= k2 < n && k1 != k2
      ensures Col(n, j)[k1] != Col(n, j)[k2]
    {
      if Col(n, j)[k1] == Col(n, j)[k2] {
        CellInjective(n, k1, j, k2, j);
      }
    }
  }

  lemma BlockOK(n: nat, b: nat, bi: nat, bj: nat)
    requires b > 0 && b * b == n && bi < b && bj < b
    ensures GroupOK(n, Block(n, b, bi, bj))
  {
    var grp := Block(n, b, bi, bj);
    forall k | 0 <= k < n ensures grp[k] < n * n {
      BlockCellIn(b, bi, bj, k);
      CellBound(n, BlockRow(b, bi, k), BlockCol(b, bj, k));
    }
    forall k1, k2 | 0 <= k1 < n && 0 <= k2 < n && k1 != k2
      ensures grp[k1] != grp[k2]
    {
      BlockEntriesDiffer(n, b, bi, bj, k1, k2);
    }
  }

  lemma BlockEntriesDiffer(n: nat, b: nat, bi: nat, bj: nat, k1: nat, k2: nat)
    requires b > 0 && b * b == n && bi < b && bj < b && k1 < n && k2 < n && k1 != k2
    ensures Block(n, b, bi, bj)[k1] != Block(n, b, bi, bj)[k2]
  {
    BlockCellIn(b, bi, bj, k1);
    BlockCellIn(b, bi, bj, k2);
    if Block(n, b, bi, bj)[k1] == Block(n, b, bi, bj)[k2] {
      CellInjective(n, BlockRow(b, bi, k1), BlockCol(b, bj, k1), BlockRow(b, bi, k2), BlockCol(b, bj, k2));
      BlockCellInjective(b, bi, bj, k1, k2);
    }
  }

  /** Every group `subgrid_map` visits is `n` distinct cells of the grid. */
  lemma GroupsOK(n: nat)
    requires ValidSize(n)
    ensures forall g | 0 <= g < |Groups(n)| :: GroupOK(n, Groups(n)[g])
  {
    var b := BlockSize(n);
    forall g | 0 <= g < 3 * n ensures GroupOK(n, Groups(n)[g]) {
      if g < n {
        RowOK(n, g);
      } else if g < 2 * n {
        ColOK(n, g - n);
      } else {
        var t := g - 2 * n;
        DivBelow(t, b, b);
        BlockOK(n, b, t / b, t % b);
      }
    }
  }

  /** Cell `(i, j)` lies in row `i` at position `j` and in column `j` at position `i` ... */
  lemma CellInItsLines(n: nat, i: nat, j: nat)
    requires i < n && j < n
    ensures Row(n, i)[j] == Cell(n, i, j)
    ensures Col(n, j)[i] == Cell(n, i, j)
  {
  }

  /** ... and in block `(i / b, j / b)` at position `(i % b) * b + j % b`. */
  lemma CellInItsBlock(n: nat, i: nat, j: nat)
    requires ValidSize(n) && i < n && j < n
    ensures var b := BlockSize(n);
            i / b < b && j / b < b && (i % b) * b + j % b < n &&
            Block(n, b, i / b, j / b)[(i % b) * b + j % b] == Cell(n, i, j)
  {
    var b := BlockSize(n);
    BlockPosition(b, i, j);
  }

  lemma BlockPosition(b: nat, i: nat, j: nat)
    requires b > 0 && i < b * b && j < b * b
    ensures i / b < b && j / b < b
    ensures (i % b) * b + j % b < b * b
    ensures BlockRow(b, i / b, (i % b) * b + j % b) == i
    ensures BlockCol(b, j / b, (i % b) * b + j % b) == j
  {
    DivBelow(i, b, b);
    DivBelow(j, b, b);
    var k := (i % b) * b + j % b;
    MulLess(i % b, b, b);
    DivUnique(k, b, i % b, j % b);
    assert (i / b) * b + i % b == i;
    assert (j / b) * b + j % b == j;
  }

  // ---------------------------------------------------------------------
  // Reading and writing the cells of a group
  // ---------------------------------------------------------------------

  /** The cells a group designates: what the pointer array `subgrid` sees. */
  function Gather(g: Grid, grp: seq<nat>): (sub: seq<PSet>)
    requires forall k | 0 <= k < |grp| :: grp[k] < |g|
    ensures |sub| == |grp|
    ensures forall k | 0 <= k < |grp| :: sub[k] == g[grp[k]]
  {
    seq(|grp|, k requires 0 <= k < |grp| => g[grp[k]])
  }

  /** Write `sub` back through the pointers of the group. */
  function Scatter(g: Grid, grp: seq<nat>, sub: seq<PSet>): (h: Grid)
    requires |sub| == |grp|
    requires forall k | 0 <= k < |grp| :: grp[k] < |g|
    ensures |h| == |g|
    decreases |grp|
  {
    if |grp| == 0 then g
    else Scatter(g, grp[..|grp| - 1], sub[..|sub| - 1])[grp[|grp| - 1] := sub[|sub| - 1]]
  }

  /** Writing through distinct pointers: each designated cell receives its value, every other cell is kept. */
  lemma {:induction false} ScatterCells(g: Grid, grp: seq<nat>, sub: seq<PSet>)
    requires |sub| == |grp|
    requires forall k | 0 <= k < |grp| :: grp[k] < |g|
    requires forall k1, k2 | 0 <= k1 < |grp| && 0 <= k2 < |grp| && k1 != k2 :: grp[k1] != grp[k2]
    ensures forall k | 0 <= k < |grp| :: Scatter(g, grp, sub)[grp[k]] == sub[k]
    ensures forall c | 0 <= c < |g| && c !in grp :: Scatter(g, grp, sub)[c] == g[c]
    decreases |grp|
  {
    if |grp| > 0 {
      var m := |grp| - 1;
      ScatterCells(g, grp[..m], sub[..m]);
      forall c | 0 <= c < |g| && c !in grp ensures Scatter(g, grp, sub)[c] == g[c] {
        assert c !in grp[..m];
      }
      forall k | 0 <= k < |grp| ensures Scatter(g, grp, sub)[grp[k]] == sub[k] {
        if k < m {
          assert grp[k] == grp[..m][k];
        }
      }
    }
  }

  /** Writing back what was read changes nothing. */
  lemma ScatterGather(g: Grid, grp: seq<nat>)
    requires forall k | 0 <= k < |grp| :: grp[k] < |g|
    requires forall k1, k2 | 0 <= k1 < |grp| && 0 <= k2 < |grp| && k1 != k2 :: grp[k1] != grp[k2]
    ensures Scatter(g, grp, Gather(g, grp)) == g
  {
    var h := Scatter(g, grp, Gather(g, grp));
    ScatterCells(g, grp, Gather(g, grp));
    forall c | 0 <= c < |g| ensures h[c] == g[c] {
      if c in grp {
        var k :| 0 <= k < |grp| && grp[k] == c;
      }
    }
  }

  // ---------------------------------------------------------------------
  // Input characters
  // ---------------------------------------------------------------------

  /** `check_input_char`: `_` (an empty cell) or one of the first `n` colour symbols. */
  function CheckInputChar(c: char, n: nat): (r: bool)
    requires n <= MaxColors
    ensures r <==> c == '_' || 0 <= ColorIndex(c) < n
  {
    if c == '_' then true else SearchColor(c, n, 0)
  }

  /** The search loop of `check_input_char` from position `i` on. */
  function SearchColor(c: char, n: nat, i: nat): (r: bool)
    requires i <= n <= MaxColors
    ensures r <==> exists k | i <= k < n :: ColorTable[k] == c
    ensures r <==> i <= ColorIndex(c) < n
    decreases n - i
  {
    ColorIndexInverse(c);
    if i == n then false
    else if ColorTable[i] == c then
      ColorTableDistinctAt(c, i);
      true
    else
      SearchColor(c, n, i + 1)
  }
}
