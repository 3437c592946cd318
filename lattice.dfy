/**
 The pure side of the Ising lattice engine (app/utils/model.py): the toroidal
 neighbour relation, the cost of flipping one spin, the energy sum that the
 observer computes (with its per-row division by 4 and its repeated `jp1`),
 and one Metropolis step on a grid value. The class in IsingModel updates an
 array in place and is specified by these functions.
 */
module Lattice {

  /** A lattice value: row i, column j holds the spin g[i][j]. */
  type Grid = seq<seq<int>>

  /** A rectangular grid with at least one row and one column. */
  predicate IsGrid(g: Grid) {
    |g| > 0 && |g[0]| > 0 && forall r :: 0 <= r < |g| ==> |g[r]| == |g[0]|
  }

  function Height(g: Grid): nat { |g| }

  function Width(g: Grid): nat
    requires |g| > 0
  {
    |g[0]|
  }

  predicate InGrid(g: Grid, i: int, j: int)
    requires IsGrid(g)
  {
    0 <= i < Height(g) && 0 <= j < Width(g)
  }

  predicate SameShape(g: Grid, g': Grid)
    requires IsGrid(g)
  {
    IsGrid(g') && Height(g') == Height(g) && Width(g') == Width(g)
  }

  // ---------------------------------------------------------------------------
  // Neighbours
  // ---------------------------------------------------------------------------

  /** Python's `k % n` for a positive modulus. Python rounds the quotient down,
      so the remainder lies in [0, n); for n > 0 that is Dafny's Euclidean `%`. */
  function Wrap(k: int, n: int): (r: int)
    requires n > 0
    ensures 0 <= r < n
    ensures 0 <= k < n ==> r == k
    ensures k == -1 ==> r == n - 1
    ensures k == n ==> r == 0
  {
    k % n
  }

  /** The coordinates `_neighbours` visits, in its order: up, down, left, right,
      each wrapped around the torus. */
  function NeighbourCoords(i: int, j: int, h: int, w: int): (r: seq<(int, int)>)
    requires h > 0 && w > 0
    ensures |r| == 4
    ensures 0 <= i < h && 0 <= j < w ==>
      forall k :: 0 <= k < 4 ==> 0 <= r[k].0 < h && 0 <= r[k].1 < w
  {
    [(Wrap(i - 1, h), j), (Wrap(i + 1, h), j), (i, Wrap(j - 1, w)), (i, Wrap(j + 1, w))]
  }

  /** The neighbour relation is symmetric: the cell above (i, j) has (i, j) as
      the cell below it, and so on for each of the four directions. */
  lemma NeighbourSymmetric(i: int, j: int, h: int, w: int)
    requires h > 0 && w > 0 && 0 <= i < h && 0 <= j < w
    ensures var c := NeighbourCoords(i, j, h, w);
      && NeighbourCoords(c[0].0, c[0].1, h, w)[1] == (i, j)
      && NeighbourCoords(c[1].0, c[1].1, h, w)[0] == (i, j)
      && NeighbourCoords(c[2].0, c[2].1, h, w)[3] == (i, j)
      && NeighbourCoords(c[3].0, c[3].1, h, w)[2] == (i, j)
  {
    WrapStep(i, h);
    WrapStep(j, w);
  }

  /** Stepping back and forth around a cycle of length n returns to the start. */
  lemma WrapStep(k: int, n: int)
    requires 0 <= k < n
    ensures Wrap(Wrap(k - 1, n) + 1, n) == k
    ensures Wrap(Wrap(k + 1, n) - 1, n) == k
  {
    if k == 0 {
      assert Wrap(k - 1, n) == n - 1;
    } else {
      assert Wrap(k - 1, n) == k - 1;
    }
    if k == n - 1 {
      assert Wrap(k + 1, n) == 0;
    } else {
      assert Wrap(k + 1, n) == k + 1;
    }
  }

  /** The spins `_neighbours` returns for (i, j), in the order of NeighbourCoords. */
  function NeighbourValues(g: Grid, i: int, j: int): (r: seq<int>)
    requires IsGrid(g) && InGrid(g, i, j)
  {
    var c := NeighbourCoords(i, j, Height(g), Width(g));
    seq(4, k requires 0 <= k < 4 => g[c[k].0][c[k].1])
  }

  /** `np.sum` of a list of spins. */
  function Sum(s: seq<int>): int {
    if s == [] then 0 else Sum(s[..|s| - 1]) + s[|s| - 1]
  }

  /** A prefix one longer adds the next entry. */
  lemma SumSnoc(s: seq<int>, j: int)
    requires 0 <= j < |s|
    ensures Sum(s[..j + 1]) == Sum(s[..j]) + s[j]
  {
    assert s[..j + 1][..j] == s[..j];
  }

  lemma {:induction false} SumConcat(a: seq<int>, b: seq<int>)
    ensures Sum(a + b) == Sum(a) + Sum(b)
    decreases |b|
  {
    if b == [] {
      assert a + b == a;
    } else {
      var b' := b[..|b| - 1];
      assert (a + b)[..|a + b| - 1] == a + b';
      SumConcat(a, b');
    }
  }

  /** The four neighbour spins summed: up + down + left + right. */
  lemma NeighbourSum(g: Grid, i: int, j: int)
    requires IsGrid(g) && InGrid(g, i, j)
    ensures var h, w := Height(g), Width(g);
      Sum(NeighbourValues(g, i, j)) ==
        g[Wrap(i - 1, h)][j] + g[Wrap(i + 1, h)][j] + g[i][Wrap(j - 1, w)] + g[i][Wrap(j + 1, w)]
  {
    var s := NeighbourValues(g, i, j);
    assert Sum(s) == Sum(s[..3]) + s[3];
    assert s[..3][..2] == s[..2] && s[..2][..1] == s[..1] && s[..1][..0] == [];
    assert Sum(s[..3]) == Sum(s[..2]) + s[2];
    assert Sum(s[..2]) == Sum(s[..1]) + s[1];
    assert Sum(s[..1]) == s[0];
  }

  // ---------------------------------------------------------------------------
  // Energy of one site and of the whole lattice
  // ---------------------------------------------------------------------------

  /** `delta_energy`: twice the spin at (i, j) times the sum of its neighbours. */
  function Delta(g: Grid, i: int, j: int): int
    requires IsGrid(g) && InGrid(g, i, j)
  {
    2 * g[i][j] * Sum(NeighbourValues(g, i, j))
  }

  /** The energy of one site as the four `_neighbours` give it: minus the spin
      times the sum of its neighbours. */
  function LocalEnergy(g: Grid, i: int, j: int): int
    requires IsGrid(g) && InGrid(g, i, j)
  {
    -g[i][j] * Sum(NeighbourValues(g, i, j))
  }

  /** Flipping a spin costs minus twice its local energy. */
  lemma DeltaIsLocalEnergyChange(g: Grid, i: int, j: int)
    requires IsGrid(g) && InGrid(g, i, j)
    ensures Delta(g, i, j) == -2 * LocalEnergy(g, i, j)
  {
  }

  /** The term `_observe__energy` adds for (i, j), as written: the right-hand
      neighbour (i, jp1) is added twice and the left-hand one (i, jm1) never. */
  function SiteTerm(g: Grid, i: int, j: int): int
    requires IsGrid(g) && InGrid(g, i, j)
  {
    var h, w := Height(g), Width(g);
    var ip1, im1, jp1 := Wrap(i + 1, h), Wrap(i - 1, h), Wrap(j + 1, w);
    -g[i][j] * (g[ip1][j] + g[i][jp1] + g[im1][j] + g[i][jp1])
  }

  /** The terms of row i, left to right. */
  function RowTerms(g: Grid, i: int): (r: seq<int>)
    requires IsGrid(g) && 0 <= i < Height(g)
    ensures |r| == Width(g)
  {
    seq(Width(g), j requires 0 <= j < Width(g) => SiteTerm(g, i, j))
  }

  function RowSum(g: Grid, i: int): int
    requires IsGrid(g) && 0 <= i < Height(g)
  {
    Sum(RowTerms(g, i))
  }

  /** The running total of `_observe__energy` after its first k rows: each row's
      terms are added and then the whole total so far is divided by 4. */
  function EnergyUpTo(g: Grid, k: nat): real
    requires IsGrid(g) && k <= Height(g)
  {
    if k == 0 then 0.0 else (EnergyUpTo(g, k - 1) + RowSum(g, k - 1) as real) / 4.0
  }

  /** What `_observe__energy` returns for the grid g. */
  function ObservedEnergy(g: Grid): real
    requires IsGrid(g)
  {
    EnergyUpTo(g, Height(g))
  }

  /** Sum of the four terms row by row: each row's sum is weighted by
      4^-(rows after it, itself included); only the last row receives the single
      factor 1/4, earlier rows are divided again by every later row's division. */
  function Quarter(n: nat): (r: real)
    ensures r > 0.0
  {
    if n == 0 then 1.0 else Quarter(n - 1) / 4.0
  }

  function WeightedRows(g: Grid, k: nat, top: nat): real
    requires IsGrid(g) && k <= top <= Height(g)
  {
    if k == 0 then 0.0
    else WeightedRows(g, k - 1, top) + RowSum(g, k - 1) as real * Quarter(top - (k - 1))
  }

  lemma {:induction false} WeightedRowsShift(g: Grid, k: nat, top: nat)
    requires IsGrid(g) && k <= top < Height(g)
    ensures WeightedRows(g, k, top + 1) == WeightedRows(g, k, top) / 4.0
  {
    if k > 0 {
      WeightedRowsShift(g, k - 1, top);
    }
  }

  /** The closed form of the per-row division: row r's sum enters the result
      multiplied by 4^-(h - r), where h is the number of rows. */
  lemma {:induction false} EnergyRowWeights(g: Grid, k: nat)
    requires IsGrid(g) && k <= Height(g)
    ensures EnergyUpTo(g, k) == WeightedRows(g, k, k)
  {
    if k > 0 {
      EnergyRowWeights(g, k - 1);
      WeightedRowsShift(g, k - 1, k - 1);
      var x, row := WeightedRows(g, k - 1, k - 1), RowSum(g, k - 1) as real;
      assert Quarter(1) == 0.25;
      calc {
        WeightedRows(g, k, k);
        WeightedRows(g, k - 1, k) + row * Quarter(1);
        x / 4.0 + row * 0.25;
        (EnergyUpTo(g, k - 1) + row) / 4.0;
      }
    }
  }

  // ---------------------------------------------------------------------------
  // The repeated jp1 does not change the result
  // ---------------------------------------------------------------------------

  /** Equal differences term by term give equal differences of the sums. */
  lemma {:induction false} SumDifference(a: seq<int>, b: seq<int>, c: seq<int>, d: seq<int>)
    requires |a| == |b| == |c| == |d|
    requires forall k :: 0 <= k < |a| ==> a[k] - b[k] == c[k] - d[k]
    ensures Sum(a) - Sum(b) == Sum(c) - Sum(d)
    decreases |a|
  {
    if |a| > 0 {
      var n := |a| - 1;
      SumDifference(a[..n], b[..n], c[..n], d[..n]);
    }
  }

  /** Moving the last element to the front does not change the sum. */
  lemma SumRotate(s: seq<int>)
    requires |s| > 0
    ensures Sum([s[|s| - 1]] + s[..|s| - 1]) == Sum(s)
  {
    SumConcat([s[|s| - 1]], s[..|s| - 1]);
    assert [s[|s| - 1]][..0] == [];
  }

  /** The local energies of row i, as the four `_neighbours` give them. */
  function LocalTerms(g: Grid, i: int): (r: seq<int>)
    requires IsGrid(g) && 0 <= i < Height(g)
    ensures |r| == Width(g)
  {
    seq(Width(g), j requires 0 <= j < Width(g) => LocalEnergy(g, i, j))
  }

  /** On a ring of spins, the products with the right-hand neighbour and the
      products with the left-hand neighbour have the same sum. */
  lemma RingPairs(s: seq<int>)
    requires |s| > 0
    ensures var w := |s|;
      Sum(seq(w, j requires 0 <= j < w => s[j] * s[Wrap(j - 1, w)]))
        == Sum(seq(w, j requires 0 <= j < w => s[j] * s[Wrap(j + 1, w)]))
  {
    var w := |s|;
    var back := seq(w, j requires 0 <= j < w => s[j] * s[Wrap(j - 1, w)]);
    var fwd := seq(w, j requires 0 <= j < w => s[j] * s[Wrap(j + 1, w)]);
    assert back == [fwd[w - 1]] + fwd[..w - 1] by {
      forall k | 0 <= k < w
        ensures back[k] == ([fwd[w - 1]] + fwd[..w - 1])[k]
      {
        if k == 0 {
          assert back[0] == s[0] * s[w - 1];
        } else {
          assert back[k] == s[k] * s[k - 1] && fwd[k - 1] == s[k - 1] * s[k];
        }
      }
    }
    SumRotate(fwd);
  }

  /** At one site, counting the right-hand neighbour twice instead of the
      left-hand one changes the term by the difference of the two products. */
  lemma SiteTermGap(g: Grid, i: int, j: int)
    requires IsGrid(g) && InGrid(g, i, j)
    ensures var w := Width(g);
      SiteTerm(g, i, j) - LocalEnergy(g, i, j) ==
        g[i][j] * g[i][Wrap(j - 1, w)] - g[i][j] * g[i][Wrap(j + 1, w)]
  {
    NeighbourSum(g, i, j);
    var h, w := Height(g), Width(g);
    var x, up, down := g[i][j], g[Wrap(i - 1, h)][j], g[Wrap(i + 1, h)][j];
    var left, right := g[i][Wrap(j - 1, w)], g[i][Wrap(j + 1, w)];
    assert -x * (down + right + up + right) == -x * (up + down) - 2 * (x * right);
    assert -x * (up + down + left + right) == -x * (up + down) - x * left - x * right;
  }

  /** The energy loop adds (i, jp1) twice where the left-hand neighbour (i, jm1)
      is meant; summed over a whole row the two give the same total, so every
      row sum equals the sum of the local energies built from `_neighbours`. */
  lemma RowSumMatchesNeighbours(g: Grid, i: int)
    requires IsGrid(g) && 0 <= i < Height(g)
    ensures RowSum(g, i) == Sum(LocalTerms(g, i))
  {
    var s, w := g[i], Width(g);
    var back := seq(w, j requires 0 <= j < w => s[j] * s[Wrap(j - 1, w)]);
    var fwd := seq(w, j requires 0 <= j < w => s[j] * s[Wrap(j + 1, w)]);
    forall k | 0 <= k < w
      ensures RowTerms(g, i)[k] - LocalTerms(g, i)[k] == back[k] - fwd[k]
    {
      SiteTermGap(g, i, k);
    }
    SumDifference(RowTerms(g, i), LocalTerms(g, i), back, fwd);
    RingPairs(s);
  }

  // ---------------------------------------------------------------------------
  // Reversing every spin
  // ---------------------------------------------------------------------------

  /** The grid with every spin negated. */
  function Negate(g: Grid): (r: Grid)
    requires IsGrid(g)
    ensures SameShape(g, r)
    ensures forall a, b :: InGrid(g, a, b) ==> r[a][b] == -g[a][b]
  {
    seq(|g|, i requires 0 <= i < |g| => seq(|g[i]|, j requires 0 <= j < |g[i]| => -g[i][j]))
  }

  /** Reversing every spin leaves the observed energy unchanged. */
  lemma EnergyFlipSymmetric(g: Grid)
    requires IsGrid(g)
    ensures ObservedEnergy(Negate(g)) == ObservedEnergy(g)
  {
    var n := Negate(g);
    forall i | 0 <= i < Height(g)
      ensures RowSum(n, i) == RowSum(g, i)
    {
      forall j | 0 <= j < Width(g)
        ensures SiteTerm(n, i, j) == SiteTerm(g, i, j)
      {
        var h, w := Height(g), Width(g);
        var ip1, im1, jp1 := Wrap(i + 1, h), Wrap(i - 1, h), Wrap(j + 1, w);
        var x, y := g[i][j], g[ip1][j] + g[i][jp1] + g[im1][j] + g[i][jp1];
        assert n[ip1][j] + n[i][jp1] + n[im1][j] + n[i][jp1] == -y;
        assert -(-x) * (-y) == -x * y;
      }
      assert RowTerms(n, i) == RowTerms(g, i);
    }
    EnergyUpToAgree(n, g, Height(g));
  }

  /** Two grids of the same height whose row sums agree have the same running
      total. */
  lemma {:induction false} EnergyUpToAgree(g: Grid, g': Grid, k: nat)
    requires IsGrid(g) && IsGrid(g') && Height(g) == Height(g') && k <= Height(g)
    requires forall i :: 0 <= i < Height(g) ==> RowSum(g, i) == RowSum(g', i)
    ensures EnergyUpTo(g, k) == EnergyUpTo(g', k)
  {
    if k > 0 {
      EnergyUpToAgree(g, g', k - 1);
    }
  }

  /** Reversing every spin leaves the cost of every flip unchanged. */
  lemma DeltaFlipSymmetric(g: Grid, i: int, j: int)
    requires IsGrid(g) && InGrid(g, i, j)
    ensures Delta(Negate(g), i, j) == Delta(g, i, j)
  {
    NeighbourSum(g, i, j);
    NeighbourSum(Negate(g), i, j);
  }

  // ---------------------------------------------------------------------------
  // One Metropolis step on a grid value
  // ---------------------------------------------------------------------------

  /** The grid with cell (i, j) set to v and nothing else changed. */
  function SetCell(g: Grid, i: int, j: int, v: int): (r: Grid)
    requires IsGrid(g) && InGrid(g, i, j)
    ensures SameShape(g, r)
    ensures r[i][j] == v
    ensures forall a, b :: InGrid(g, a, b) && (a, b) != (i, j) ==> r[a][b] == g[a][b]
  {
    g[i := g[i][j := v]]
  }

  /** The random inputs of one `evolve_one` call: the cell drawn with
      `np.random.randint`, and whether `np.random.rand() < exp(-delta_e/beta)`
      holds for the uniform number drawn. */
  datatype Draw = Draw(row: int, col: int, accept: bool)

  /** The acceptance rule: a flip that lowers the energy is always taken;
      otherwise the draw decides. */
  predicate Accepts(g: Grid, d: Draw)
    requires IsGrid(g) && InGrid(g, d.row, d.col)
  {
    Delta(g, d.row, d.col) < 0 || d.accept
  }

  /** `evolve_one` on a grid value: the drawn cell becomes `-1 *` itself when
      the flip is accepted and keeps its value otherwise. */
  function Step(g: Grid, d: Draw): (r: Grid)
    requires IsGrid(g) && InGrid(g, d.row, d.col)
    ensures SameShape(g, r)
  {
    if Accepts(g, d) then SetCell(g, d.row, d.col, -1 * g[d.row][d.col]) else g
  }

  /** A step changes at most the drawn cell, which is negated or kept; when the
      flip lowers the energy it is negated whatever the draw says. */
  lemma StepChangesOneCell(g: Grid, d: Draw)
    requires IsGrid(g) && InGrid(g, d.row, d.col)
    ensures var r := Step(g, d);
      && r[d.row][d.col] == (if Accepts(g, d) then -g[d.row][d.col] else g[d.row][d.col])
      && (Delta(g, d.row, d.col) < 0 ==> r[d.row][d.col] == -g[d.row][d.col])
      && forall a, b :: InGrid(g, a, b) && (a, b) != (d.row, d.col) ==> r[a][b] == g[a][b]
  {
  }

  /** When flipping lowers the energy, the outcome does not depend on the
      random draw. */
  lemma NegativeDeltaIgnoresDraw(g: Grid, i: int, j: int)
    requires IsGrid(g) && InGrid(g, i, j) && Delta(g, i, j) < 0
    ensures Step(g, Draw(i, j, false)) == Step(g, Draw(i, j, true)) == SetCell(g, i, j, -g[i][j])
  {
  }

  /** Every draw names a cell of a grid of g's shape. */
  predicate DrawsFit(g: Grid, ds: seq<Draw>)
    requires IsGrid(g)
  {
    forall k :: 0 <= k < |ds| ==> InGrid(g, ds[k].row, ds[k].col)
  }

  /** True when no draw names the cell (a, b). */
  predicate NeverDrawn(ds: seq<Draw>, a: int, b: int) {
    forall k :: 0 <= k < |ds| ==> ds[k].row != a || ds[k].col != b
  }

  /** The grid after one `evolve_one` per draw, in order. Every cell keeps its
      magnitude, and a cell that was never drawn keeps its value. */
  function Run(g: Grid, ds: seq<Draw>): (r: Grid)
    requires IsGrid(g) && DrawsFit(g, ds)
    ensures SameShape(g, r)
    decreases |ds|
  {
    if ds == [] then g
    else
      var prev := ds[..|ds| - 1];
      assert DrawsFit(g, prev);
      Step(Run(g, prev), ds[|ds| - 1])
  }

  /** A run only ever negates spins: every cell keeps its magnitude, and a
      cell that no draw names keeps its value. */
  lemma {:induction false} RunCells(g: Grid, ds: seq<Draw>)
    requires IsGrid(g) && DrawsFit(g, ds)
    ensures var r := Run(g, ds);
      && (forall a, b :: InGrid(g, a, b) ==> r[a][b] == g[a][b] || r[a][b] == -g[a][b])
      && (forall a, b :: InGrid(g, a, b) && NeverDrawn(ds, a, b) ==> r[a][b] == g[a][b])
    decreases |ds|
  {
    if ds != [] {
      var prev, d := ds[..|ds| - 1], ds[|ds| - 1];
      assert DrawsFit(g, prev);
      RunCells(g, prev);
      StepChangesOneCell(Run(g, prev), d);
      forall a, b | InGrid(g, a, b) && NeverDrawn(ds, a, b)
        ensures NeverDrawn(prev, a, b) && (a, b) != (d.row, d.col)
      {
        assert ds[|ds| - 1] == d;
      }
    }
  }

  /** When the spin values are closed under negation (as the default [-1, 1]
      is), a run keeps every cell inside the set of spin values. */
  lemma RunKeepsSpins(g: Grid, ds: seq<Draw>, states: set<int>)
    requires IsGrid(g) && DrawsFit(g, ds)
    requires forall x :: x in states ==> -x in states
    requires forall a, b :: InGrid(g, a, b) ==> g[a][b] in states
    ensures var r := Run(g, ds);
      forall a, b :: InGrid(g, a, b) ==> r[a][b] in states
  {
    RunCells(g, ds);
  }

  /** Without that closure a step can leave the spin values: when the drawn
      spin's negation is not a spin value (the spin 1 of [0, 1], say), the
      drawn cell stays a spin value exactly when the flip is rejected. */
  lemma StepLeavesSpins(g: Grid, d: Draw, states: set<int>)
    requires IsGrid(g) && InGrid(g, d.row, d.col)
    requires g[d.row][d.col] in states && -g[d.row][d.col] !in states
    ensures Step(g, d)[d.row][d.col] in states <==> !Accepts(g, d)
  {
    StepChangesOneCell(g, d);
  }

  /** On a lattice of at least two rows and two columns no cell is its own
      neighbour. */
  lemma NoSelfNeighbour(i: int, j: int, h: int, w: int)
    requires 2 <= h && 2 <= w && 0 <= i < h && 0 <= j < w
    ensures forall k :: 0 <= k < 4 ==> NeighbourCoords(i, j, h, w)[k] != (i, j)
  {
    if i == 0 { assert Wrap(i - 1, h) == h - 1; } else { assert Wrap(i - 1, h) == i - 1; }
    if i == h - 1 { assert Wrap(i + 1, h) == 0; } else { assert Wrap(i + 1, h) == i + 1; }
    if j == 0 { assert Wrap(j - 1, w) == w - 1; } else { assert Wrap(j - 1, w) == j - 1; }
    if j == w - 1 { assert Wrap(j + 1, w) == 0; } else { assert Wrap(j + 1, w) == j + 1; }
  }

  /** On a lattice of at least two rows and two columns, flipping a spin
      exactly negates the cost of flipping it again: an accepted move can be
      undone at the opposite cost. */
  lemma FlipNegatesDelta(g: Grid, i: int, j: int)
    requires IsGrid(g) && InGrid(g, i, j) && Height(g) >= 2 && Width(g) >= 2
    ensures Delta(SetCell(g, i, j, -g[i][j]), i, j) == -Delta(g, i, j)
  {
    NoSelfNeighbour(i, j, Height(g), Width(g));
    NeighbourSum(g, i, j);
    NeighbourSum(SetCell(g, i, j, -g[i][j]), i, j);
  }
}
