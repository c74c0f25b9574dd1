/** Conway's Game of Life (rule B3/S23) on a fixed, non-wrapping rectangular grid.

    The grid is a two-dimensional array of integers: Length0 rows, Length1 columns,
    0 for a dead cell and 1 for a live one. CountNeighbors adds up the in-grid cells
    of a position's Moore neighbourhood; UpdateGrid copies the grid and rewrites the
    copy cell by cell, reading neighbour counts only from the unchanged original. */
module GameOfLife {

  type Offset = (int, int)

  /** The eight Moore-neighbourhood offsets in the order the neighbour count visits
      them; (0, 0), the cell itself, is not among them. */
  const Offsets: seq<Offset> := [(-1, -1), (-1, 0), (-1, 1), (0, -1), (0, 1), (1, -1), (1, 0), (1, 1)]

  predicate InBounds(g: array2<int>, r: int, c: int)
  {
    0 <= r < g.Length0 && 0 <= c < g.Length1
  }

  /** Every cell holds 0 (dead) or 1 (alive). */
  ghost predicate Binary(g: array2<int>)
    reads g
  {
    forall i, j :: 0 <= i < g.Length0 && 0 <= j < g.Length1 ==> g[i, j] == 0 || g[i, j] == 1
  }

  /** Every cell is dead. */
  ghost predicate AllDead(g: array2<int>)
    reads g
  {
    forall i, j :: 0 <= i < g.Length0 && 0 <= j < g.Length1 ==> g[i, j] == 0
  }

  /** What position (r, c) adds to a neighbour count: its value inside the grid,
      nothing outside it (there is no wrap-around). */
  function Cell(g: array2<int>, r: int, c: int): int
    reads g
  {
    if InBounds(g, r, c) then g[r, c] else 0
  }

  /** The sum of Cell over the positions (r, c) + d, for d in ds. */
  function SumOver(g: array2<int>, r: int, c: int, ds: seq<Offset>): int
    reads g
  {
    if ds == [] then 0 else Cell(g, r + ds[0].0, c + ds[0].1) + SumOver(g, r, c, ds[1..])
  }

  /** How many of the positions (r, c) + d, for d in ds, lie inside the grid and are
      therefore read by the neighbour count. */
  function Examined(g: array2<int>, r: int, c: int, ds: seq<Offset>): nat
  {
    if ds == [] then 0
    else (if InBounds(g, r + ds[0].0, c + ds[0].1) then 1 else 0) + Examined(g, r, c, ds[1..])
  }

  /** The neighbour count of (r, c), as count_neighbors defines it. */
  function Neighbours(g: array2<int>, r: int, c: int): int
    reads g
  {
    SumOver(g, r, c, Offsets)
  }

  /** Reference definition: the live in-grid cells of the 3x3 window around (r, c),
      the centre excluded. */
  ghost function LiveNeighbours(g: array2<int>, r: int, c: int): set<(int, int)>
    reads g
  {
    set i: int, j: int | r - 1 <= i <= r + 1 && c - 1 <= j <= c + 1 && (i, j) != (r, c)
                         && InBounds(g, i, j) && g[i, j] == 1 :: (i, j)
  }

  /** The live positions (r, c) + d, for d in ds. */
  ghost function LiveAt(g: array2<int>, r: int, c: int, ds: seq<Offset>): set<(int, int)>
    reads g
  {
    if ds == [] then {}
    else (if Cell(g, r + ds[0].0, c + ds[0].1) == 1 then {(r + ds[0].0, c + ds[0].1)} else {})
         + LiveAt(g, r, c, ds[1..])
  }

  ghost predicate Distinct(ds: seq<Offset>)
  {
    forall i, j :: 0 <= i < j < |ds| ==> ds[i] != ds[j]
  }

  // ---------------------------------------------------------------------------
  // Neighbour counting

  /** The count loop of count_neighbors: an accumulator over the eight offsets,
      adding the value of each in-grid neighbour and skipping the others. */
  method CountNeighbors(grid: array2<int>, row: int, col: int) returns (count: int)
    ensures count == Neighbours(grid, row, col)
    ensures Binary(grid) ==> 0 <= count <= Examined(grid, row, col, Offsets) <= 8
    ensures Binary(grid) ==> count == |LiveNeighbours(grid, row, col)|
  {
    var neighbors := Offsets;
    count := 0;
    for k := 0 to |neighbors|
      invariant count + SumOver(grid, row, col, neighbors[k..]) == Neighbours(grid, row, col)
    {
      assert neighbors[k..][1..] == neighbors[k + 1..];
      var (dr, dc) := neighbors[k];
      var r, c := row + dr, col + dc;
      if 0 <= r < grid.Length0 && 0 <= c < grid.Length1 {
        count := count + grid[r, c];
      }
    }
    if Binary(grid) {
      NeighboursRange(grid, row, col);
      NeighboursCountLive(grid, row, col);
    }
  }

  lemma {:induction false} SumOverBounds(g: array2<int>, r: int, c: int, ds: seq<Offset>)
    requires Binary(g)
    ensures 0 <= SumOver(g, r, c, ds) <= Examined(g, r, c, ds) <= |ds|
  {
    if ds != [] {
      SumOverBounds(g, r, c, ds[1..]);
    }
  }

  /** On a 0/1 grid the count lies in [0, 8] and does not exceed the number of
      in-grid neighbours. */
  lemma NeighboursRange(g: array2<int>, r: int, c: int)
    requires Binary(g)
    ensures 0 <= Neighbours(g, r, c) <= Examined(g, r, c, Offsets) <= 8
  {
    SumOverBounds(g, r, c, Offsets);
  }

  lemma {:induction false} LiveAtMembers(g: array2<int>, r: int, c: int, ds: seq<Offset>, p: (int, int))
    ensures p in LiveAt(g, r, c, ds) <==> (p.0 - r, p.1 - c) in ds && Cell(g, p.0, p.1) == 1
  {
    if ds != [] {
      assert ds == [ds[0]] + ds[1..];
      LiveAtMembers(g, r, c, ds[1..], p);
    }
  }

  lemma {:induction false} LiveAtCount(g: array2<int>, r: int, c: int, ds: seq<Offset>)
    requires Binary(g)
    requires Distinct(ds)
    ensures |LiveAt(g, r, c, ds)| == SumOver(g, r, c, ds)
  {
    if ds != [] {
      var p := (r + ds[0].0, c + ds[0].1);
      LiveAtCount(g, r, c, ds[1..]);
      LiveAtMembers(g, r, c, ds[1..], p);
      assert (p.0 - r, p.1 - c) == ds[0];
      assert ds[0] !in ds[1..];
    }
  }

  /** The offsets are exactly the Moore neighbourhood: the 3x3 window without its centre. */
  lemma OffsetsAreMoore(d: Offset)
    ensures d in Offsets <==> -1 <= d.0 <= 1 && -1 <= d.1 <= 1 && d != (0, 0)
  {
  }

  lemma OffsetsDistinct()
    ensures Distinct(Offsets)
  {
  }

  /** The count equals the number of live cells among the in-grid Moore neighbours,
      and the cell itself is never one of them. */
  lemma NeighboursCountLive(g: array2<int>, r: int, c: int)
    requires Binary(g)
    ensures Neighbours(g, r, c) == |LiveNeighbours(g, r, c)|
    ensures (r, c) !in LiveNeighbours(g, r, c)
  {
    OffsetsDistinct();
    LiveAtCount(g, r, c, Offsets);
    forall p | p in LiveNeighbours(g, r, c) || p in LiveAt(g, r, c, Offsets)
      ensures p in LiveNeighbours(g, r, c) <==> p in LiveAt(g, r, c, Offsets)
    {
      LiveAtMembers(g, r, c, Offsets, p);
      OffsetsAreMoore((p.0 - r, p.1 - c));
    }
    assert LiveNeighbours(g, r, c) == LiveAt(g, r, c, Offsets);
  }

  /** The neighbour count written out as the sum of its eight terms. */
  lemma UnfoldNeighbours(g: array2<int>, r: int, c: int)
    ensures Neighbours(g, r, c) ==
              Cell(g, r - 1, c - 1) + Cell(g, r - 1, c) + Cell(g, r - 1, c + 1)
            + Cell(g, r, c - 1) + Cell(g, r, c + 1)
            + Cell(g, r + 1, c - 1) + Cell(g, r + 1, c) + Cell(g, r + 1, c + 1)
  {
    var t8: seq<Offset> := [];
    var t7 := [(1, 1)] + t8;
    var t6 := [(1, 0)] + t7;
    var t5 := [(1, -1)] + t6;
    var t4 := [(0, 1)] + t5;
    var t3 := [(0, -1)] + t4;
    var t2 := [(-1, 1)] + t3;
    var t1 := [(-1, 0)] + t2;
    var t0 := [(-1, -1)] + t1;
    assert t7[1..] == t8;
    assert SumOver(g, r, c, t7) == Cell(g, r + 1, c + 1) + SumOver(g, r, c, t8);
    assert t6[1..] == t7;
    assert SumOver(g, r, c, t6) == Cell(g, r + 1, c) + SumOver(g, r, c, t7);
    assert t5[1..] == t6;
    assert SumOver(g, r, c, t5) == Cell(g, r + 1, c - 1) + SumOver(g, r, c, t6);
    assert t4[1..] == t5;
    assert SumOver(g, r, c, t4) == Cell(g, r, c + 1) + SumOver(g, r, c, t5);
    assert t3[1..] == t4;
    assert SumOver(g, r, c, t3) == Cell(g, r, c - 1) + SumOver(g, r, c, t4);
    assert t2[1..] == t3;
    assert SumOver(g, r, c, t2) == Cell(g, r - 1, c + 1) + SumOver(g, r, c, t3);
    assert t1[1..] == t2;
    assert SumOver(g, r, c, t1) == Cell(g, r - 1, c) + SumOver(g, r, c, t2);
    assert t0[1..] == t1;
    assert SumOver(g, r, c, t0) == Cell(g, r - 1, c - 1) + SumOver(g, r, c, t1);
    assert t0 == Offsets;
  }

  /** The number of examined positions written out as the sum of its eight terms. */
  lemma UnfoldExamined(g: array2<int>, r: int, c: int)
    ensures Examined(g, r, c, Offsets) ==
              (if InBounds(g, r - 1, c - 1) then 1 else 0) + (if InBounds(g, r - 1, c) then 1 else 0)
            + (if InBounds(g, r - 1, c + 1) then 1 else 0) + (if InBounds(g, r, c - 1) then 1 else 0)
            + (if InBounds(g, r, c + 1) then 1 else 0) + (if InBounds(g, r + 1, c - 1) then 1 else 0)
            + (if InBounds(g, r + 1, c) then 1 else 0) + (if InBounds(g, r + 1, c + 1) then 1 else 0)
  {
    var t8: seq<Offset> := [];
    var t7 := [(1, 1)] + t8;
    var t6 := [(1, 0)] + t7;
    var t5 := [(1, -1)] + t6;
    var t4 := [(0, 1)] + t5;
    var t3 := [(0, -1)] + t4;
    var t2 := [(-1, 1)] + t3;
    var t1 := [(-1, 0)] + t2;
    var t0 := [(-1, -1)] + t1;
    assert t7[1..] == t8;
    assert Examined(g, r, c, t7) == (if InBounds(g, r + 1, c + 1) then 1 else 0) + Examined(g, r, c, t8);
    assert t6[1..] == t7;
    assert Examined(g, r, c, t6) == (if InBounds(g, r + 1, c) then 1 else 0) + Examined(g, r, c, t7);
    assert t5[1..] == t6;
    assert Examined(g, r, c, t5) == (if InBounds(g, r + 1, c - 1) then 1 else 0) + Examined(g, r, c, t6);
    assert t4[1..] == t5;
    assert Examined(g, r, c, t4) == (if InBounds(g, r, c + 1) then 1 else 0) + Examined(g, r, c, t5);
    assert t3[1..] == t4;
    assert Examined(g, r, c, t3) == (if InBounds(g, r, c - 1) then 1 else 0) + Examined(g, r, c, t4);
    assert t2[1..] == t3;
    assert Examined(g, r, c, t2) == (if InBounds(g, r - 1, c + 1) then 1 else 0) + Examined(g, r, c, t3);
    assert t1[1..] == t2;
    assert Examined(g, r, c, t1) == (if InBounds(g, r - 1, c) then 1 else 0) + Examined(g, r, c, t2);
    assert t0[1..] == t1;
    assert Examined(g, r, c, t0) == (if InBounds(g, r - 1, c - 1) then 1 else 0) + Examined(g, r, c, t1);
    assert t0 == Offsets;
  }

  /** A corner cell has at most three in-grid neighbours, so on a 0/1 grid at most
      three live ones. */
  lemma CornerNeighbours(g: array2<int>, r: int, c: int)
    requires InBounds(g, r, c)
    requires (r == 0 || r == g.Length0 - 1) && (c == 0 || c == g.Length1 - 1)
    ensures Examined(g, r, c, Offsets) <= 3
    ensures Binary(g) ==> Neighbours(g, r, c) <= 3
  {
    UnfoldExamined(g, r, c);
    if Binary(g) { NeighboursRange(g, r, c); }
  }

  /** A cell on the border has at most five in-grid neighbours, so on a 0/1 grid at
      most five live ones. */
  lemma EdgeNeighbours(g: array2<int>, r: int, c: int)
    requires InBounds(g, r, c)
    requires r == 0 || r == g.Length0 - 1 || c == 0 || c == g.Length1 - 1
    ensures Examined(g, r, c, Offsets) <= 5
    ensures Binary(g) ==> Neighbours(g, r, c) <= 5
  {
    UnfoldExamined(g, r, c);
    if Binary(g) { NeighboursRange(g, r, c); }
  }

  /** All eight neighbours are examined exactly when the cell is off the border. */
  lemma InteriorNeighbours(g: array2<int>, r: int, c: int)
    requires InBounds(g, r, c)
    ensures Examined(g, r, c, Offsets) == 8 <==> 0 < r < g.Length0 - 1 && 0 < c < g.Length1 - 1
  {
    UnfoldExamined(g, r, c);
  }

  // ---------------------------------------------------------------------------
  // One generation

  /** The next value of a cell holding v with n live neighbours, decided as
      update_grid decides it: a cell holding 1 is alive, any other value dead, and a
      dead cell that is not born keeps the value the copy gave it. */
  function NextCell(v: int, n: int): (w: int)
    ensures v == 1 ==> (w == 1 <==> n == 2 || n == 3) && (w == 0 <==> n < 2 || n > 3)
    ensures v != 1 ==> (n == 3 ==> w == 1) && (n != 3 ==> w == v)
    ensures (v == 0 || v == 1) ==> w == (if n == 3 || (v == 1 && n == 2) then 1 else 0)
  {
    if v == 1 then
      if n < 2 || n > 3 then 0 else v
    else
      if n == 3 then 1 else v
  }

  /** The value cell (i, j) of g takes in the next generation. */
  ghost function Successor(g: array2<int>, i: int, j: int): int
    reads g
    requires InBounds(g, i, j)
  {
    NextCell(g[i, j], Neighbours(g, i, j))
  }

  /** h is the generation after g: the same shape, and every cell of h is NextCell of
      the cell of g at the same place and of its neighbour count in g. */
  ghost predicate IsNextGeneration(g: array2<int>, h: array2<int>)
    reads g, h
  {
    h.Length0 == g.Length0 && h.Length1 == g.Length1 &&
    forall i, j :: 0 <= i < g.Length0 && 0 <= j < g.Length1 ==> h[i, j] == Successor(g, i, j)
  }

  /** update_grid: a fresh grid, the next generation of the input, which is left as
      it was (the method modifies nothing that existed before the call). */
  method UpdateGrid(grid: array2<int>) returns (newGrid: array2<int>)
    ensures fresh(newGrid)
    ensures IsNextGeneration(grid, newGrid)
  {
    newGrid := new int[grid.Length0, grid.Length1]((i, j) requires InBounds(grid, i, j) reads grid => grid[i, j]);
    for row := 0 to grid.Length0
      invariant forall i, j :: 0 <= i < grid.Length0 && 0 <= j < grid.Length1 ==>
                  newGrid[i, j] == if i < row then Successor(grid, i, j) else grid[i, j]
    {
      for col := 0 to grid.Length1
        invariant forall i, j :: 0 <= i < grid.Length0 && 0 <= j < grid.Length1 ==>
                    newGrid[i, j] == if i < row || (i == row && j < col) then Successor(grid, i, j) else grid[i, j]
      {
        var liveNeighbors := CountNeighbors(grid, row, col);
        if grid[row, col] == 1 {
          if liveNeighbors < 2 || liveNeighbors > 3 {
            newGrid[row, col] := 0;
          }
        } else {
          if liveNeighbors == 3 {
            newGrid[row, col] := 1;
          }
        }
      }
    }
  }

  /** Given a 0/1 grid, every cell of the next generation is 0 or 1. */
  lemma NextGenerationKeepsBinary(g: array2<int>, h: array2<int>)
    requires IsNextGeneration(g, h)
    requires Binary(g)
    ensures Binary(h)
  {
  }

  lemma {:induction false} SumOverOfDead(g: array2<int>, r: int, c: int, ds: seq<Offset>)
    requires AllDead(g)
    ensures SumOver(g, r, c, ds) == 0
  {
    if ds != [] {
      SumOverOfDead(g, r, c, ds[1..]);
    }
  }

  /** An all-dead grid stays all dead: nothing is born without neighbours. */
  lemma AllDeadStaysDead(g: array2<int>, h: array2<int>)
    requires IsNextGeneration(g, h)
    requires AllDead(g)
    ensures AllDead(h)
  {
    forall i, j | 0 <= i < h.Length0 && 0 <= j < h.Length1
      ensures h[i, j] == 0
    {
      SumOverOfDead(g, i, j, Offsets);
    }
  }

  /** A single live cell with no other live cell in the grid dies of
      under-population (its own value is never part of its count), and nothing is
      born next to it: the next generation is all dead. */
  lemma IsolatedCellDies(g: array2<int>, h: array2<int>, r: int, c: int)
    requires InBounds(g, r, c) && g[r, c] == 1
    requires forall i, j :: 0 <= i < g.Length0 && 0 <= j < g.Length1 && (i, j) != (r, c) ==> g[i, j] == 0
    requires IsNextGeneration(g, h)
    ensures Neighbours(g, r, c) == 0
    ensures AllDead(h)
  {
    assert Binary(g);
    forall i, j | 0 <= i < h.Length0 && 0 <= j < h.Length1
      ensures Neighbours(g, i, j) <= 1 && h[i, j] == 0
    {
      NeighboursCountLive(g, i, j);
      var live := LiveNeighbours(g, i, j);
      assert live <= {(r, c)};
      assert live == {} || live == {(r, c)};
    }
    NeighboursCountLive(g, r, c);
    assert LiveNeighbours(g, r, c) == {};
  }

  /** The 2x2 block is a still life wherever it lies inside the grid, the border
      included: the next generation holds the same values. */
  lemma BlockIsStill(g: array2<int>, h: array2<int>, r: int, c: int)
    requires InBounds(g, r, c) && InBounds(g, r + 1, c + 1)
    requires forall i, j :: 0 <= i < g.Length0 && 0 <= j < g.Length1 ==>
               g[i, j] == (if r <= i <= r + 1 && c <= j <= c + 1 then 1 else 0)
    requires IsNextGeneration(g, h)
    ensures SameCells(g, h)
  {
    forall i, j | 0 <= i < g.Length0 && 0 <= j < g.Length1
      ensures h[i, j] == g[i, j]
    {
      UnfoldNeighbours(g, i, j);
    }
  }

  /** g and h have the same shape and hold the same values. */
  ghost predicate SameCells(g: array2<int>, h: array2<int>)
    reads g, h
  {
    g.Length0 == h.Length0 && g.Length1 == h.Length1 &&
    forall i, j :: 0 <= i < g.Length0 && 0 <= j < g.Length1 ==> g[i, j] == h[i, j]
  }

  lemma {:induction false} SumOverSameCells(g: array2<int>, h: array2<int>, r: int, c: int, ds: seq<Offset>)
    requires SameCells(g, h)
    ensures SumOver(g, r, c, ds) == SumOver(h, r, c, ds)
  {
    if ds != [] {
      SumOverSameCells(g, h, r, c, ds[1..]);
    }
  }

  /** The next generation depends only on the values of the grid: two separately
      allocated grids holding the same values have next generations holding the
      same values. */
  lemma NextGenerationDeterministic(g1: array2<int>, g2: array2<int>, h1: array2<int>, h2: array2<int>)
    requires SameCells(g1, g2)
    requires IsNextGeneration(g1, h1) && IsNextGeneration(g2, h2)
    ensures SameCells(h1, h2)
  {
    forall i, j | 0 <= i < h1.Length0 && 0 <= j < h1.Length1
      ensures h1[i, j] == h2[i, j]
    {
      SumOverSameCells(g1, g2, i, j, Offsets);
    }
  }

  /** The live cells of the 5x5 glider in its first three phases (Glider(0, ..) is the seed). */
  predicate Glider(phase: nat, i: int, j: int)
  {
    if phase == 0 then
      (i == 0 && j == 1)
      || (i == 1 && j == 2)
      || (i == 2 && j == 0)
      || (i == 2 && j == 1)
      || (i == 2 && j == 2)
    else if phase == 1 then
      (i == 1 && j == 0)
      || (i == 1 && j == 2)
      || (i == 2 && j == 1)
      || (i == 2 && j == 2)
      || (i == 3 && j == 1)
    else
      (i == 1 && j == 2)
      || (i == 2 && j == 0)
      || (i == 2 && j == 2)
      || (i == 3 && j == 1)
      || (i == 3 && j == 2)
  }

  /** g is the 5x5 glider in the given phase. */
  ghost predicate IsGlider(g: array2<int>, phase: nat)
    reads g
  {
    g.Length0 == 5 && g.Length1 == 5 &&
    forall i, j :: 0 <= i < 5 && 0 <= j < 5 ==> g[i, j] == if Glider(phase, i, j) then 1 else 0
  }

  function GliderIn(phase: nat, i: int, j: int): int
  {
    if 0 <= i < 5 && 0 <= j < 5 && Glider(phase, i, j) then 1 else 0
  }

  /** On a glider grid the neighbour count counts the glider's cells around (r, c). */
  lemma GliderCount(g: array2<int>, phase: nat, r: int, c: int)
    requires IsGlider(g, phase)
    ensures Neighbours(g, r, c) ==
              GliderIn(phase, r - 1, c - 1) + GliderIn(phase, r - 1, c) + GliderIn(phase, r - 1, c + 1)
            + GliderIn(phase, r, c - 1) + GliderIn(phase, r, c + 1)
            + GliderIn(phase, r + 1, c - 1) + GliderIn(phase, r + 1, c) + GliderIn(phase, r + 1, c + 1)
  {
    UnfoldNeighbours(g, r, c);
  }

  /** One generation takes the glider from each phase to the next. */
  lemma GliderStep(g: array2<int>, h: array2<int>, phase: nat)
    requires phase < 2
    requires IsGlider(g, phase) && IsNextGeneration(g, h)
    ensures IsGlider(h, phase + 1)
  {
    forall i, j | 0 <= i < 5 && 0 <= j < 5
      ensures h[i, j] == if Glider(phase + 1, i, j) then 1 else 0
    {
      GliderCount(g, phase, i, j);
    }
  }

  /** The glider is not a still life: its second generation differs from its first. */
  lemma GliderMoves(g: array2<int>, h: array2<int>, k: array2<int>)
    requires IsGlider(g, 0)
    requires IsNextGeneration(g, h) && IsNextGeneration(h, k)
    ensures IsGlider(h, 1) && IsGlider(k, 2)
    ensures !SameCells(h, k)
  {
    GliderStep(g, h, 0);
    GliderStep(h, k, 1);
    assert h[1, 0] != k[1, 0];
  }
}
