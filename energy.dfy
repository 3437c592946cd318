/**
 The energy of a whole lattice (app/utils/model.py, `_observe__energy` and
 `delta_energy`): sums over every site, the energy with the factor 1/4 applied
 once, how a single flip changes it, and what the per-row division of the
 source does instead.
 */
module Energy {
  import opened Lattice

  // ---------------------------------------------------------------------------
  // Sums over a whole grid of terms
  // ---------------------------------------------------------------------------

  /** t has h rows of w entries each. */
  predicate Rect(t: seq<seq<int>>, h: int, w: int) {
    |t| == h && forall r :: 0 <= r < h ==> |t[r]| == w
  }

  /** The sum of each row of t. */
  function RowTotals(t: seq<seq<int>>): (r: seq<int>)
    ensures |r| == |t|
  {
    seq(|t|, a requires 0 <= a < |t| => Sum(t[a]))
  }

  /** The sum of every entry of t. */
  function GridSum(t: seq<seq<int>>): int {
    Sum(RowTotals(t))
  }

  /** Sums add entry by entry. */
  lemma {:induction false} SumAdd(a: seq<int>, b: seq<int>, c: seq<int>)
    requires |a| == |b| == |c|
    requires forall k :: 0 <= k < |c| ==> c[k] == a[k] + b[k]
    ensures Sum(c) == Sum(a) + Sum(b)
    decreases |c|
  {
    if |c| > 0 {
      var n := |c| - 1;
      SumAdd(a[..n], b[..n], c[..n]);
    }
  }

  /** A sequence that is zero everywhere except perhaps at index q sums to its
      entry at q (to 0 when q is out of range). */
  lemma {:induction false} SumPoint(s: seq<int>, q: int)
    requires forall k :: 0 <= k < |s| && k != q ==> s[k] == 0
    ensures Sum(s) == if 0 <= q < |s| then s[q] else 0
    decreases |s|
  {
    if |s| > 0 {
      SumPoint(s[..|s| - 1], q);
    }
  }

  /** Grid sums add entry by entry. */
  lemma GridSumAdd(a: seq<seq<int>>, b: seq<seq<int>>, c: seq<seq<int>>, h: int, w: int)
    requires Rect(a, h, w) && Rect(b, h, w) && Rect(c, h, w)
    requires forall r, k :: 0 <= r < h && 0 <= k < w ==> c[r][k] == a[r][k] + b[r][k]
    ensures GridSum(c) == GridSum(a) + GridSum(b)
  {
    forall r | 0 <= r < h
      ensures RowTotals(c)[r] == RowTotals(a)[r] + RowTotals(b)[r]
    {
      SumAdd(a[r], b[r], c[r]);
    }
    SumAdd(RowTotals(a), RowTotals(b), RowTotals(c));
  }

  /** A grid of zeros sums to 0. */
  lemma GridSumZero(t: seq<seq<int>>, h: int, w: int)
    requires Rect(t, h, w)
    requires forall r, k :: 0 <= r < h && 0 <= k < w ==> t[r][k] == 0
    ensures GridSum(t) == 0
  {
    GridSumAdd(t, t, t, h, w);
  }

  /** An h x w grid holding v at p and 0 elsewhere. */
  function Point(h: nat, w: nat, p: (int, int), v: int): (t: seq<seq<int>>)
    ensures Rect(t, h, w)
    ensures forall r, k :: 0 <= r < h && 0 <= k < w ==> t[r][k] == if (r, k) == p then v else 0
  {
    seq(h, r requires 0 <= r < h => seq(w, k requires 0 <= k < w => if (r, k) == p then v else 0))
  }

  /** A point grid sums to its one value. */
  lemma PointSum(h: nat, w: nat, p: (int, int), v: int)
    requires 0 <= p.0 < h && 0 <= p.1 < w
    ensures GridSum(Point(h, w, p, v)) == v
  {
    var t := Point(h, w, p, v);
    var rt := RowTotals(t);
    forall r | 0 <= r < h
      ensures rt[r] == if r == p.0 then v else 0
    {
      SumPoint(t[r], if r == p.0 then p.1 else -1);
    }
    SumPoint(rt, p.0);
  }

  /** The total that a list of point masses, ps[k] carrying vs[k], places
      on the cell x. */
  function MassAt(ps: seq<(int, int)>, vs: seq<int>, x: (int, int)): int
    requires |ps| == |vs|
    decreases |ps|
  {
    if ps == [] then 0
    else MassAt(ps[..|ps| - 1], vs[..|vs| - 1], x) + (if ps[|ps| - 1] == x then vs[|vs| - 1] else 0)
  }

  /** The h x w grid of the masses that ps and vs place on each cell. */
  function Masses(h: nat, w: nat, ps: seq<(int, int)>, vs: seq<int>): (t: seq<seq<int>>)
    requires |ps| == |vs|
    ensures Rect(t, h, w)
    ensures forall r, k :: 0 <= r < h && 0 <= k < w ==> t[r][k] == MassAt(ps, vs, (r, k))
  {
    seq(h, r requires 0 <= r < h => seq(w, k requires 0 <= k < w => MassAt(ps, vs, (r, k))))
  }

  /** Adding the last mass to the grid of the others gives the grid of all,
      so the grid sums add. */
  lemma MassesStep(h: nat, w: nat, ps: seq<(int, int)>, vs: seq<int>)
    requires |ps| == |vs| > 0
    ensures var n := |ps| - 1;
      GridSum(Masses(h, w, ps, vs)) == GridSum(Masses(h, w, ps[..n], vs[..n])) + GridSum(Point(h, w, ps[n], vs[n]))
  {
    var n := |ps| - 1;
    var prev, last, all := Masses(h, w, ps[..n], vs[..n]), Point(h, w, ps[n], vs[n]), Masses(h, w, ps, vs);
    assert forall r, k :: 0 <= r < h && 0 <= k < w ==> all[r][k] == prev[r][k] + last[r][k];
    GridSumAdd(prev, last, all, h, w);
  }

  /** Masses placed on cells of the grid add up to the sum of their values,
      wherever they fall and whether or not they share a cell. */
  lemma {:induction false} MassesSum(h: nat, w: nat, ps: seq<(int, int)>, vs: seq<int>)
    requires |ps| == |vs|
    requires forall k :: 0 <= k < |ps| ==> 0 <= ps[k].0 < h && 0 <= ps[k].1 < w
    ensures GridSum(Masses(h, w, ps, vs)) == Sum(vs)
    decreases |ps|
  {
    if ps == [] {
      GridSumZero(Masses(h, w, ps, vs), h, w);
    } else {
      var n := |ps| - 1;
      assert Sum(vs) == Sum(vs[..n]) + vs[n];
      MassesSum(h, w, ps[..n], vs[..n]);
      MassesStep(h, w, ps, vs);
      PointSum(h, w, ps[n], vs[n]);
    }
  }

  /** The sum of five numbers. */
  lemma SumFive(s: seq<int>)
    requires |s| == 5
    ensures Sum(s) == s[0] + s[1] + s[2] + s[3] + s[4]
  {
    assert s[..4][..3] == s[..3] && s[..3][..2] == s[..2] && s[..2][..1] == s[..1] && s[..1][..0] == [];
    assert Sum(s[..1]) == s[0];
    assert Sum(s[..2]) == Sum(s[..1]) + s[1];
    assert Sum(s[..3]) == Sum(s[..2]) + s[2];
    assert Sum(s[..4]) == Sum(s[..3]) + s[3];
  }

  lemma Distribute(t: int, a: int, b: int, c: int, d: int)
    ensures t * (a + b + c + d) == t * a + t * b + t * c + t * d
  {
  }

  lemma HitScale(t: int, p: (int, int), q: (int, int))
    ensures t * Hit(p, q) == if q == p then t else 0
  {
  }

  /** The mass five point masses place on x, written out. */
  lemma MassAtFive(ps: seq<(int, int)>, vs: seq<int>, x: (int, int))
    requires |ps| == |vs| == 5
    ensures MassAt(ps, vs, x) ==
      (if ps[0] == x then vs[0] else 0) + (if ps[1] == x then vs[1] else 0) + (if ps[2] == x then vs[2] else 0)
      + (if ps[3] == x then vs[3] else 0) + (if ps[4] == x then vs[4] else 0)
  {
    assert ps[..4][..3] == ps[..3] && ps[..3][..2] == ps[..2] && ps[..2][..1] == ps[..1] && ps[..1][..0] == [];
    assert vs[..4][..3] == vs[..3] && vs[..3][..2] == vs[..2] && vs[..2][..1] == vs[..1] && vs[..1][..0] == [];
    assert MassAt(ps[..1], vs[..1], x) == if ps[0] == x then vs[0] else 0;
    assert MassAt(ps[..2], vs[..2], x) == MassAt(ps[..1], vs[..1], x) + if ps[1] == x then vs[1] else 0;
    assert MassAt(ps[..3], vs[..3], x) == MassAt(ps[..2], vs[..2], x) + if ps[2] == x then vs[2] else 0;
    assert MassAt(ps[..4], vs[..4], x) == MassAt(ps[..3], vs[..3], x) + if ps[3] == x then vs[3] else 0;
  }

  // ---------------------------------------------------------------------------
  // The energy of a lattice
  // ---------------------------------------------------------------------------

  /** The row sums of `_observe__energy` as a sequence. */
  function RowSums(g: Grid): (r: seq<int>)
    requires IsGrid(g)
    ensures |r| == Height(g)
  {
    seq(Height(g), i requires 0 <= i < Height(g) => RowSum(g, i))
  }

  /** The energy with the factor 1/4 applied once, after the sum over all
      rows, as the comment in the energy loop says is meant. */
  function TotalEnergy(g: Grid): real
    requires IsGrid(g)
  {
    Sum(RowSums(g)) as real / 4.0
  }

  /** The sum of the site terms counts every bond twice (once from each end);
      halving it counts each bond once. This is the energy whose change
      `delta_energy` computes. */
  function BondEnergy(g: Grid): real
    requires IsGrid(g)
  {
    Sum(RowSums(g)) as real / 2.0
  }

  // ---------------------------------------------------------------------------
  // What one flip does to the energy
  // ---------------------------------------------------------------------------

  /** 1 when p is the cell q, 0 otherwise. */
  function Hit(p: (int, int), q: (int, int)): int {
    if p == q then 1 else 0
  }

  /** (i, j) lies in direction k of (a, b) exactly when (a, b) lies in the
      opposite direction of (i, j): up and down swap, and so do left and
      right. */
  lemma TouchIff(i: int, j: int, a: int, b: int, h: int, w: int)
    requires h > 0 && w > 0 && 0 <= i < h && 0 <= j < w && 0 <= a < h && 0 <= b < w
    ensures var c, e := NeighbourCoords(i, j, h, w), NeighbourCoords(a, b, h, w);
      && Hit(e[0], (i, j)) == Hit((a, b), c[1]) && Hit(e[1], (i, j)) == Hit((a, b), c[0])
      && Hit(e[2], (i, j)) == Hit((a, b), c[3]) && Hit(e[3], (i, j)) == Hit((a, b), c[2])
  {
    NeighbourSymmetric(i, j, h, w);
    NeighbourSymmetric(a, b, h, w);
  }

  /** Flipping (i, j) lowers the neighbour sum of any other cell (a, b) by
      twice the old spin of (i, j), once for each side on which they touch. */
  lemma FlipNeighbourSum(g: Grid, i: int, j: int, a: int, b: int)
    requires IsGrid(g) && InGrid(g, i, j) && InGrid(g, a, b) && (a, b) != (i, j)
    ensures var f, e := SetCell(g, i, j, -g[i][j]), NeighbourCoords(a, b, Height(g), Width(g));
      Sum(NeighbourValues(f, a, b)) == Sum(NeighbourValues(g, a, b)) -
        2 * g[i][j] * (Hit(e[0], (i, j)) + Hit(e[1], (i, j)) + Hit(e[2], (i, j)) + Hit(e[3], (i, j)))
  {
    var f := SetCell(g, i, j, -g[i][j]);
    NeighbourSum(g, a, b);
    NeighbourSum(f, a, b);
  }

  /** Flipping (i, j) changes its own local energy by `delta_energy`. */
  lemma FlipOwnEnergy(g: Grid, i: int, j: int)
    requires IsGrid(g) && InGrid(g, i, j) && Height(g) >= 2 && Width(g) >= 2
    ensures LocalEnergy(SetCell(g, i, j, -g[i][j]), i, j) - LocalEnergy(g, i, j) == Delta(g, i, j)
  {
    var f := SetCell(g, i, j, -g[i][j]);
    FlipNegatesDelta(g, i, j);
    DeltaIsLocalEnergyChange(g, i, j);
    DeltaIsLocalEnergyChange(f, i, j);
  }

  /** Flipping (i, j) changes the local energy of another cell (a, b) by
      2 * spin(i, j) * spin(a, b) for each side on which (a, b) touches (i, j). */
  lemma FlipOtherEnergy(g: Grid, i: int, j: int, a: int, b: int)
    requires IsGrid(g) && InGrid(g, i, j) && InGrid(g, a, b) && (a, b) != (i, j)
    ensures var f, c := SetCell(g, i, j, -g[i][j]), NeighbourCoords(i, j, Height(g), Width(g));
      LocalEnergy(f, a, b) - LocalEnergy(g, a, b) ==
        2 * g[i][j] * g[a][b] * (Hit((a, b), c[0]) + Hit((a, b), c[1]) + Hit((a, b), c[2]) + Hit((a, b), c[3]))
  {
    var h, w := Height(g), Width(g);
    var c, e := NeighbourCoords(i, j, h, w), NeighbourCoords(a, b, h, w);
    TouchIff(i, j, a, b, h, w);
    FlipNeighbourSum(g, i, j, a, b);
    var f := SetCell(g, i, j, -g[i][j]);
    var m := Hit(e[0], (i, j)) + Hit(e[1], (i, j)) + Hit(e[2], (i, j)) + Hit(e[3], (i, j));
    assert m == Hit((a, b), c[0]) + Hit((a, b), c[1]) + Hit((a, b), c[2]) + Hit((a, b), c[3]);
    var s, x, n := g[i][j], g[a][b], Sum(NeighbourValues(g, a, b));
    assert f[a][b] == x;
    ScaledChange(x, n, s, m);
  }

  lemma ScaledChange(x: int, n: int, s: int, m: int)
    ensures -x * (n - 2 * s * m) - -x * n == 2 * s * x * m
  {
  }

  /** The cells that flipping (i, j) affects: (i, j) and its four neighbours. */
  function Affected(i: int, j: int, h: int, w: int): (ps: seq<(int, int)>)
    requires h > 0 && w > 0
    ensures |ps| == 5
  {
    [(i, j)] + NeighbourCoords(i, j, h, w)
  }

  /** How much the local energy of each affected cell changes: `delta_energy`
      at (i, j), and 2 * spin(i, j) * spin(n) at each neighbour n. */
  function Changes(g: Grid, i: int, j: int): (vs: seq<int>)
    requires IsGrid(g) && InGrid(g, i, j)
    ensures |vs| == 5
  {
    var c, s := NeighbourCoords(i, j, Height(g), Width(g)), g[i][j];
    [Delta(g, i, j), 2 * s * g[c[0].0][c[0].1], 2 * s * g[c[1].0][c[1].1],
      2 * s * g[c[2].0][c[2].1], 2 * s * g[c[3].0][c[3].1]]
  }

  /** The change in local energies that flipping (i, j) spreads over the
      lattice (added up where two neighbours coincide). */
  function Spread(g: Grid, i: int, j: int): (t: seq<seq<int>>)
    requires IsGrid(g) && InGrid(g, i, j)
    ensures Rect(t, Height(g), Width(g))
    ensures forall a, b :: 0 <= a < Height(g) && 0 <= b < Width(g) ==>
      t[a][b] == MassAt(Affected(i, j, Height(g), Width(g)), Changes(g, i, j), (a, b))
  {
    Masses(Height(g), Width(g), Affected(i, j, Height(g), Width(g)), Changes(g, i, j))
  }

  /** The changes add up to twice `delta_energy`: `delta_energy` itself at
      (i, j), and 2 * spin(i, j) times the neighbour sum, which is
      `delta_energy` again. */
  lemma ChangesSum(g: Grid, i: int, j: int)
    requires IsGrid(g) && InGrid(g, i, j)
    ensures Sum(Changes(g, i, j)) == 2 * Delta(g, i, j)
  {
    var c, s := NeighbourCoords(i, j, Height(g), Width(g)), g[i][j];
    var n0, n1, n2, n3 := g[c[0].0][c[0].1], g[c[1].0][c[1].1], g[c[2].0][c[2].1], g[c[3].0][c[3].1];
    SumFive(Changes(g, i, j));
    Distribute(2 * s, n0, n1, n2, n3);
    NeighbourSum(g, i, j);
    assert Delta(g, i, j) == 2 * s * (n0 + n1 + n2 + n3);
  }

  /** The spread change adds up to twice `delta_energy`. */
  lemma SpreadSum(g: Grid, i: int, j: int)
    requires IsGrid(g) && InGrid(g, i, j)
    ensures GridSum(Spread(g, i, j)) == 2 * Delta(g, i, j)
  {
    MassesSum(Height(g), Width(g), Affected(i, j, Height(g), Width(g)), Changes(g, i, j));
    ChangesSum(g, i, j);
  }

  /** Flipping (i, j) changes the local energy of (i, j) by `delta_energy`, and
      that of each neighbour (a, b) of (i, j) by 2 * spin(i, j) * spin(a, b),
      once for each side on which (a, b) touches (i, j); no other site's local
      energy changes. */
  lemma SiteChange(g: Grid, i: int, j: int, a: int, b: int)
    requires IsGrid(g) && InGrid(g, i, j) && InGrid(g, a, b) && Height(g) >= 2 && Width(g) >= 2
    ensures LocalEnergy(SetCell(g, i, j, -g[i][j]), a, b) - LocalEnergy(g, a, b) ==
      MassAt(Affected(i, j, Height(g), Width(g)), Changes(g, i, j), (a, b))
  {
    var h, w := Height(g), Width(g);
    var c, s := NeighbourCoords(i, j, h, w), g[i][j];
    MassAtFive(Affected(i, j, h, w), Changes(g, i, j), (a, b));
    NoSelfNeighbour(i, j, h, w);
    if (a, b) == (i, j) {
      FlipOwnEnergy(g, i, j);
    } else {
      FlipOtherEnergy(g, i, j, a, b);
      var t := 2 * s * g[a][b];
      Distribute(t, Hit((a, b), c[0]), Hit((a, b), c[1]), Hit((a, b), c[2]), Hit((a, b), c[3]));
      HitScale(t, (a, b), c[0]);
      HitScale(t, (a, b), c[1]);
      HitScale(t, (a, b), c[2]);
      HitScale(t, (a, b), c[3]);
    }
  }

  /** Flipping (i, j) adds the spread change to every local energy of row a. */
  lemma FlipRow(g: Grid, i: int, j: int, a: int)
    requires IsGrid(g) && InGrid(g, i, j) && Height(g) >= 2 && Width(g) >= 2 && 0 <= a < Height(g)
    ensures forall b :: 0 <= b < Width(g) ==>
      LocalTerms(SetCell(g, i, j, -g[i][j]), a)[b] == LocalTerms(g, a)[b] + Spread(g, i, j)[a][b]
  {
    var f := SetCell(g, i, j, -g[i][j]);
    var after, before, p := LocalTerms(f, a), LocalTerms(g, a), Spread(g, i, j);
    forall b | 0 <= b < Width(g)
      ensures after[b] == before[b] + p[a][b]
    {
      SiteChange(g, i, j, a, b);
    }
  }

  /** The local energies of row a after a flip sum to those before plus the
      change p added to each of them. */
  lemma FlipTermsSum(g: Grid, i: int, j: int, a: int, p: seq<int>)
    requires IsGrid(g) && InGrid(g, i, j) && 0 <= a < Height(g) && |p| == Width(g)
    requires forall b :: 0 <= b < Width(g) ==> LocalTerms(SetCell(g, i, j, -g[i][j]), a)[b] == LocalTerms(g, a)[b] + p[b]
    ensures Sum(LocalTerms(SetCell(g, i, j, -g[i][j]), a)) == Sum(LocalTerms(g, a)) + Sum(p)
  {
    SumAdd(LocalTerms(g, a), p, LocalTerms(SetCell(g, i, j, -g[i][j]), a));
  }

  /** Flipping (i, j) adds the row's share of the spread change to the sum of
      row a that `_observe__energy` forms. */
  lemma FlipRowSum(g: Grid, i: int, j: int, a: int)
    requires IsGrid(g) && InGrid(g, i, j) && Height(g) >= 2 && Width(g) >= 2 && 0 <= a < Height(g)
    ensures RowSum(SetCell(g, i, j, -g[i][j]), a) == RowSum(g, a) + Sum(Spread(g, i, j)[a])
  {
    FlipRow(g, i, j, a);
    FlipTermsSum(g, i, j, a, Spread(g, i, j)[a]);
    RowSumMatchesNeighbours(g, a);
    RowSumMatchesNeighbours(SetCell(g, i, j, -g[i][j]), a);
  }

  /** The row sums of f are those of g plus q, row by row, so their totals
      differ by the sum of q. */
  lemma RowSumsShift(g: Grid, f: Grid, q: seq<int>)
    requires IsGrid(g) && IsGrid(f) && Height(f) == Height(g) == |q|
    requires forall a :: 0 <= a < Height(g) ==> RowSums(f)[a] == RowSums(g)[a] + q[a]
    ensures Sum(RowSums(f)) == Sum(RowSums(g)) + Sum(q)
  {
    SumAdd(RowSums(g), q, RowSums(f));
  }

  /** Summed over the whole lattice, a flip of (i, j) changes the row sums of
      `_observe__energy` by twice `delta_energy`: once at (i, j) itself and
      once more spread over its four neighbours. */
  lemma FlipRowSums(g: Grid, i: int, j: int)
    requires IsGrid(g) && InGrid(g, i, j) && Height(g) >= 2 && Width(g) >= 2
    ensures Sum(RowSums(SetCell(g, i, j, -g[i][j]))) == Sum(RowSums(g)) + 2 * Delta(g, i, j)
  {
    var f := SetCell(g, i, j, -g[i][j]);
    var p := Spread(g, i, j);
    forall a | 0 <= a < Height(g)
      ensures RowSums(f)[a] == RowSums(g)[a] + RowTotals(p)[a]
    {
      FlipRowSum(g, i, j, a);
    }
    RowSumsShift(g, f, RowTotals(p));
    SpreadSum(g, i, j);
  }

  // ---------------------------------------------------------------------------
  // The energy a flip, a step and a run change
  // ---------------------------------------------------------------------------

  /** Flipping (i, j) changes the bond energy by exactly `delta_energy`. */
  lemma FlipChangesBondEnergy(g: Grid, i: int, j: int)
    requires IsGrid(g) && InGrid(g, i, j) && Height(g) >= 2 && Width(g) >= 2
    ensures BondEnergy(SetCell(g, i, j, -g[i][j])) == BondEnergy(g) + Delta(g, i, j) as real
  {
    FlipRowSums(g, i, j);
  }

  /** With the factor 1/4, a flip changes the energy by half of `delta_energy`:
      the sum of the site terms counts every bond twice, so dividing it by 4
      counts each bond one half time. */
  lemma FlipChangesTotalEnergy(g: Grid, i: int, j: int)
    requires IsGrid(g) && InGrid(g, i, j) && Height(g) >= 2 && Width(g) >= 2
    ensures TotalEnergy(SetCell(g, i, j, -g[i][j])) == TotalEnergy(g) + Delta(g, i, j) as real / 2.0
  {
    FlipRowSums(g, i, j);
  }

  /** One `evolve_one` changes the bond energy by `delta_energy` when the flip
      is taken and leaves it alone otherwise; a flip with a negative cost
      always lowers it. */
  lemma StepBondEnergy(g: Grid, d: Draw)
    requires IsGrid(g) && InGrid(g, d.row, d.col) && Height(g) >= 2 && Width(g) >= 2
    ensures BondEnergy(Step(g, d)) == BondEnergy(g) + (if Accepts(g, d) then Delta(g, d.row, d.col) else 0) as real
    ensures Delta(g, d.row, d.col) < 0 ==> BondEnergy(Step(g, d)) < BondEnergy(g)
  {
    if Accepts(g, d) {
      assert Step(g, d) == SetCell(g, d.row, d.col, -g[d.row][d.col]);
      FlipChangesBondEnergy(g, d.row, d.col);
    }
  }

  /** A cold run: every flip the random test lets through costs nothing or
      less. This covers the limit of a very small temperature, where
      `np.random.rand() < exp(-delta_e/beta)` fails for a positive cost and
      holds for a zero cost. Such a run never raises the bond energy. */
  lemma {:induction false} ColdRunNeverRaisesEnergy(g: Grid, ds: seq<Draw>)
    requires IsGrid(g) && DrawsFit(g, ds) && Height(g) >= 2 && Width(g) >= 2
    requires forall k :: 0 <= k < |ds| && ds[k].accept ==>
      DrawsFit(g, ds[..k]) && Delta(Run(g, ds[..k]), ds[k].row, ds[k].col) <= 0
    ensures BondEnergy(Run(g, ds)) <= BondEnergy(g)
    decreases |ds|
  {
    if ds != [] {
      var n := |ds| - 1;
      var prev, d := ds[..n], ds[n];
      assert DrawsFit(g, prev);
      forall k | 0 <= k < |prev| && prev[k].accept
        ensures DrawsFit(g, prev[..k]) && Delta(Run(g, prev[..k]), prev[k].row, prev[k].col) <= 0
      {
        assert prev[..k] == ds[..k] && prev[k] == ds[k];
      }
      ColdRunNeverRaisesEnergy(g, prev);
      var r := Run(g, prev);
      assert Run(g, ds) == Step(r, d);
      StepBondEnergy(r, d);
    }
  }

  // ---------------------------------------------------------------------------
  // Dividing by 4 once per row breaks the symmetry of the torus
  // ---------------------------------------------------------------------------

  /** The lattice shifted up by one row: row a of the result is row a + 1 of g,
      and the first row moves to the bottom. */
  function RollRows(g: Grid): (r: Grid)
    requires IsGrid(g)
    ensures SameShape(g, r)
    ensures forall a :: 0 <= a < Height(g) ==> r[a] == g[Wrap(a + 1, Height(g))]
  {
    g[1..] + [g[0]]
  }

  /** With a single row the per-row division happens once, and the observed
      energy is the intended one. */
  lemma OneRowEnergy(g: Grid)
    requires IsGrid(g) && Height(g) == 1
    ensures ObservedEnergy(g) == TotalEnergy(g)
  {
    var rs := RowSums(g);
    assert rs[..0] == [];
    assert Sum(rs) == RowSum(g, 0);
    assert ObservedEnergy(g) == EnergyUpTo(g, 1) == (EnergyUpTo(g, 0) + RowSum(g, 0) as real) / 4.0;
  }

  /** Row a of the rolled grid has the row sum of row a + 1 of g. */
  lemma RollRowSum(g: Grid, a: int)
    requires IsGrid(g) && 0 <= a < Height(g)
    ensures RowSum(RollRows(g), a) == RowSum(g, Wrap(a + 1, Height(g)))
  {
    var r, h := RollRows(g), Height(g);
    var b := Wrap(a + 1, h);
    WrapStep(a, h);
    assert Wrap(Wrap(a - 1, h) + 1, h) == Wrap(b - 1, h);
    assert RowTerms(r, a) == RowTerms(g, b);
  }

  /** The corrected energy is the same for a lattice and for the lattice shifted
      by one row, as the torus has no distinguished first row. */
  lemma TotalEnergyTranslationInvariant(g: Grid)
    requires IsGrid(g)
    ensures TotalEnergy(RollRows(g)) == TotalEnergy(g)
  {
    var rs, h := RowSums(g), Height(g);
    forall a | 0 <= a < h
      ensures RowSums(RollRows(g))[a] == (rs[1..] + [rs[0]])[a]
    {
      RollRowSum(g, a);
    }
    assert RowSums(RollRows(g)) == rs[1..] + [rs[0]];
    SumConcat(rs[1..], [rs[0]]);
    SumConcat([rs[0]], rs[1..]);
    assert [rs[0]] + rs[1..] == rs;
    assert [rs[0]][..0] == [];
  }

  /** As written, the observed energy changes when the same 2 x 2 lattice is
      shifted by one row: 3/4 before, -3/4 after. */
  lemma ObservedEnergyNotTranslationInvariant()
    ensures var g := [[1, 1], [1, -1]];
      IsGrid(g) && ObservedEnergy(g) == 0.75 && ObservedEnergy(RollRows(g)) == -0.75
  {
    var g := [[1, 1], [1, -1]];
    assert RowTerms(g, 0) == [-4, 0];
    assert RowTerms(g, 1) == [0, 4];
    var r := RollRows(g);
    assert r == [[1, -1], [1, 1]];
    assert RowTerms(r, 0) == [0, 4];
    assert RowTerms(r, 1) == [-4, 0];
    assert [-4, 0][..1] == [-4] && [0, 4][..1] == [0] && [-4][..0] == [] && [0][..0] == [];
  }
}
