/**
 * The evaluation oracle: scores a heuristic program on a fixed maze by
 * running a greedy best-first walk for every (start, goal) pair, and
 * keeps the set of cost-window fingerprints already seen and the best
 * average found so far.
 *
 * Averages are kept exactly, as the number of steps summed over all walks:
 * `Finite(t)` stands for the average `t / numPairs`. Every use the source
 * makes of an average (comparing two, the ratio of two, multiplying the
 * best by `num_pairs`) is unaffected by that fixed positive divisor.
 */
module AStar {
  import opened Wrappers
  import opened Grids
  import opened Dsl

  // ------------------------------------------------------------ vocabulary

  const StateX: string := "state_x"
  const StateY: string := "state_y"
  const GoalX: string := "goal_x"
  const GoalY: string := "goal_y"

  /** The program reads only names the oracle binds. */
  predicate InVocabulary(p: Program) {
    Vars(p) <= {StateX, StateY, GoalX, GoalY}
  }

  /** The program reads one of the two coordinate grids. */
  predicate ReadsState(p: Program) {
    StateX in Vars(p) || StateY in Vars(p)
  }

  /** An average step count: `Inf`, or `total / numPairs`. */
  datatype AvgSteps = Inf | Finite(total: nat)

  /** `a < b` on averages, with `Inf` above every finite value. */
  predicate Below(a: AvgSteps, b: AvgSteps) {
    match (a, b)
    case (Finite(x), Finite(y)) => x < y
    case (Finite(_), Inf) => true
    case (Inf, _) => false
  }

  // ------------------------------------------------------ state grids

  /** `np.arange(n)`: the indices `0 .. n - 1`. */
  function Range(n: nat): (r: seq<real>)
    ensures |r| == n && forall c :: 0 <= c < n ==> r[c] == c as real
  {
    if n == 0 then [] else Range(n - 1) + [(n - 1) as real]
  }

  /** `n` copies of `x`. */
  function Repeat<T>(x: T, n: nat): (r: seq<T>)
    ensures |r| == n && forall i :: 0 <= i < n ==> r[i] == x
  {
    if n == 0 then [] else Repeat(x, n - 1) + [x]
  }

  /** `state_x`, `msy` copies of `np.arange(msx)` stacked: every cell holds its column index. */
  function StateXGrid(msy: nat, msx: nat): (g: seq<seq<real>>)
    ensures IsGrid(g, msy, msx)
    ensures forall r, c :: 0 <= r < msy && 0 <= c < msx ==> g[r][c] == c as real
  {
    Repeat(Range(msx), msy)
  }

  /** `state_y`, `msx` copies of the column `np.arange(msy)` side by side: every cell holds its row index. */
  function StateYGrid(msy: nat, msx: nat): (g: seq<seq<real>>)
    ensures IsGrid(g, msy, msx)
    ensures forall r, c :: 0 <= r < msy && 0 <= c < msx ==> g[r][c] == r as real
  {
    if msy == 0 then [] else StateYGrid(msy - 1, msx) + [Repeat((msy - 1) as real, msx)]
  }

  // ------------------------------------------------ fingerprint windows

  datatype Axis = Row | Col
  datatype Edge = Start | End

  /** A key of `part_idx_dict`: pair `i`, row or column, start or end of the window. */
  datatype PartKey = PartKey(pair: nat, axis: Axis, edge: Edge)

  /** The half-open window `[lo, hi)` cut around coordinate `s` of a dimension of size `n`. */
  function WindowBounds(s: int, n: int): (b: (int, int))
    ensures b.1 - b.0 == 5
  {
    if s < 2 then (s, s + 5)
    else if s > n - 4 then (n - 6, n - 1)
    else (s - 2, s + 3)
  }

  /** In a dimension of six or more cells the window never leaves the grid. */
  lemma WindowInside(s: int, n: int)
    requires 0 <= s < n && n >= 6
    ensures 0 <= WindowBounds(s, n).0 && WindowBounds(s, n).1 <= n
  {
  }

  /** The window holds its own coordinate except at the last index, which the upper branch cuts off. */
  lemma WindowHoldsCoordinate(s: int, n: int)
    requires 0 <= s < n && n >= 6
    ensures WindowBounds(s, n).0 <= s < WindowBounds(s, n).1 <==> s != n - 1
  {
  }

  /** `g[r1:r2, c1:c2]`, the bounds inside the grid. */
  function Window(g: seq<seq<real>>, h: nat, w: nat, r1: int, r2: int, c1: int, c2: int): (p: seq<seq<real>>)
    requires IsGrid(g, h, w) && 0 <= r1 <= r2 <= h && 0 <= c1 <= c2 <= w
    ensures IsGrid(p, r2 - r1, c2 - c1)
    ensures forall i, j :: 0 <= i < r2 - r1 && 0 <= j < c2 - c1 ==> p[i][j] == g[r1 + i][c1 + j]
  {
    seq(r2 - r1, i requires 0 <= i < r2 - r1 => g[r1 + i][c1..c2])
  }

  // ---------------------------------------------------- normalisation

  /** `(g - min) / max(g - min)`, the division skipped when that maximum is zero. */
  function Normalize(g: seq<seq<real>>, h: nat, w: nat): (n: seq<seq<real>>)
    requires IsGrid(g, h, w) && h > 0 && w > 0
    ensures IsGrid(n, h, w)
  {
    var m := GridMin(g, h, w);
    var shifted := seq(h, i requires 0 <= i < h => seq(w, j requires 0 <= j < w => g[i][j] - m));
    var top := GridMax(shifted, h, w);
    if top != 0.0 then seq(h, i requires 0 <= i < h => seq(w, j requires 0 <= j < w => shifted[i][j] / top))
    else shifted
  }

  /** Normalised costs lie in `[0, 1]`, and a constant field normalises to zeros. */
  lemma NormalizeInUnit(g: seq<seq<real>>, h: nat, w: nat)
    requires IsGrid(g, h, w) && h > 0 && w > 0
    ensures forall i, j :: 0 <= i < h && 0 <= j < w ==> 0.0 <= Normalize(g, h, w)[i][j] <= 1.0
    ensures (forall i, j :: 0 <= i < h && 0 <= j < w ==> g[i][j] == g[0][0]) ==>
              forall i, j :: 0 <= i < h && 0 <= j < w ==> Normalize(g, h, w)[i][j] == 0.0
  {
    var m := GridMin(g, h, w);
    var shifted := seq(h, i requires 0 <= i < h => seq(w, j requires 0 <= j < w => g[i][j] - m));
    var top := GridMax(shifted, h, w);
    assert top >= 0.0 by {
      assert shifted[0][0] >= 0.0;
    }
    if top != 0.0 {
      forall i, j | 0 <= i < h && 0 <= j < w
        ensures 0.0 <= Normalize(g, h, w)[i][j] <= 1.0
      {
        var x := shifted[i][j];
        assert 0.0 <= x <= top;
        assert Normalize(g, h, w)[i][j] == x / top;
        DivideInUnit(x, top);
      }
    }
    if forall i, j :: 0 <= i < h && 0 <= j < w ==> g[i][j] == g[0][0] {
      var i0, j0 :| 0 <= i0 < h && 0 <= j0 < w && g[i0][j0] == m;
      assert forall i, j :: 0 <= i < h && 0 <= j < w ==> shifted[i][j] == 0.0;
      var i1, j1 :| 0 <= i1 < h && 0 <= j1 < w && shifted[i1][j1] == top;
      assert top == 0.0;
    }
  }

  lemma DivideInUnit(x: real, top: real)
    requires 0.0 <= x <= top && top > 0.0
    ensures 0.0 <= x / top <= 1.0
  {
    assert x / top * top == x;
  }

  // ------------------------------------------------------ walk arrays

  /** Cost of a blocked, padding or not-yet-revealed cell. */
  const Wall: real := 9.0
  /** Frontier value of the start cell, and working cost of a visited cell. */
  const Visited: real := 7.0

  /** `costs_array[maze == 1] = 9`. */
  function Blocked(layer: seq<seq<real>>, maze: seq<seq<bool>>, h: nat, w: nat): (g: seq<seq<real>>)
    requires IsGrid(layer, h, w) && IsGrid(maze, h, w)
    ensures IsGrid(g, h, w)
  {
    seq(h, i requires 0 <= i < h => seq(w, j requires 0 <= j < w => if maze[i][j] then Wall else layer[i][j]))
  }

  predicate OnBorder(c: Cell, h: int, w: int) {
    c.0 == 0 || c.0 == h - 1 || c.1 == 0 || c.1 == w - 1
  }

  /** A padded cost grid as the walk sees it: walls round the edge, every other cell a wall or a cost at most 1. */
  ghost predicate WalkGrid(C: seq<seq<real>>, h: nat, w: nat) {
    IsGrid(C, h, w)
    && (forall i, j :: 0 <= i < h && 0 <= j < w ==> C[i][j] == Wall || C[i][j] <= 1.0)
    && (forall i, j {:trigger C[i][j]} :: 0 <= i < h && 0 <= j < w && OnBorder((i, j), h, w) ==> C[i][j] == Wall)
  }

  /** Every cell inside the padding of `C` that a walk may enter is a free cell of the maze, one row and column up. */
  ghost predicate Unblocked(C: seq<seq<real>>, maze: seq<seq<bool>>, h: nat, w: nat) {
    IsGrid(C, h + 2, w + 2) && IsGrid(maze, h, w)
    && forall i, j :: 1 <= i <= h && 1 <= j <= w && C[i][j] <= 1.0 ==> !maze[i - 1][j - 1]
  }

  /** Every free cell of the maze may be entered on the padded grid `C`, one row and column down. */
  ghost predicate Passable(C: seq<seq<real>>, maze: seq<seq<bool>>, h: nat, w: nat) {
    IsGrid(C, h + 2, w + 2) && IsGrid(maze, h, w)
    && forall i, j :: 0 <= i < h && 0 <= j < w && !maze[i][j] ==> C[i + 1][j + 1] <= 1.0
  }

  /**
   * `costs_array[maze == 1] = 9` and `np.pad(costs_array, 1, constant_values=9)`
   * (a_star.py:191-193): the grid a walk runs on, every blocked cell and
   * the border a wall and every free cell its cost.
   */
  method PadLayer(layer: seq<seq<real>>, maze: seq<seq<bool>>, h: nat, w: nat) returns (C: seq<seq<real>>)
    requires IsGrid(layer, h, w) && IsGrid(maze, h, w)
    requires forall i, j :: 0 <= i < h && 0 <= j < w ==> layer[i][j] <= 1.0
    ensures IsGrid(C, h + 2, w + 2)
    ensures forall i, j {:trigger C[i][j]} :: 0 <= i < h + 2 && 0 <= j < w + 2 ==>
              C[i][j] == if OnBorder((i, j), h + 2, w + 2) || maze[i - 1][j - 1] then Wall else layer[i - 1][j - 1]
    ensures WalkGrid(C, h + 2, w + 2) && Unblocked(C, maze, h, w) && Passable(C, maze, h, w)
  {
    C := Pad(Blocked(layer, maze, h, w), h, w, Wall);
    forall i, j | 0 <= i < h && 0 <= j < w && !maze[i][j] ensures C[i + 1][j + 1] <= 1.0 {
      assert C[i + 1][j + 1] == layer[i][j];
    }
  }

  /** `np.rot90` of a walk grid: a walk grid again, every cell moved to its turned position. */
  method TurnLayer(C: seq<seq<real>>, h: nat, w: nat) returns (R: seq<seq<real>>)
    requires WalkGrid(C, h, w)
    ensures IsGrid(R, w, h) && forall i, j :: 0 <= i < w && 0 <= j < h ==> R[i][j] == C[j][w - 1 - i]
    ensures forall c {:trigger RotatePoint(w, c)} :: InGrid(c, h, w) ==>
              InGrid(RotatePoint(w, c), w, h) && R[RotatePoint(w, c).0][RotatePoint(w, c).1] == C[c.0][c.1]
    ensures WalkGrid(R, w, h)
  {
    R := Rot90(C, h, w);
    RotWalkGrid(C, h, w);
  }

  /** Turning a walk grid a quarter gives a walk grid. */
  lemma RotWalkGrid(C: seq<seq<real>>, h: nat, w: nat)
    requires WalkGrid(C, h, w)
    ensures WalkGrid(Rot90(C, h, w), w, h)
  {
    var R := Rot90(C, h, w);
    forall i, j | 0 <= i < w && 0 <= j < h
      ensures R[i][j] == Wall || R[i][j] <= 1.0
      ensures OnBorder((i, j), w, h) ==> R[i][j] == Wall
    {
      assert R[i][j] == C[j][w - 1 - i];
      assert OnBorder((i, j), w, h) ==> OnBorder((j, w - 1 - i), h, w);
    }
  }

  /** `a` and `b` are equal or touch, sides or corners (the 3 by 3 reveal). */
  predicate Adjacent(a: Cell, b: Cell) {
    -1 <= a.0 - b.0 <= 1 && -1 <= a.1 - b.1 <= 1
  }

  /** `c` touches one of `cells`. */
  ghost predicate Near(cells: seq<Cell>, c: Cell) {
    exists k :: 0 <= k < |cells| && Adjacent(cells[k], c)
  }

  /** The visited cells, in order: the first is the start, each later one touches an earlier one. */
  ghost predicate Chain(cells: seq<Cell>, start: Cell) {
    (cells != [] ==> cells[0] == start)
    && forall k :: 0 < k < |cells| ==> Near(cells[..k], cells[k])
  }

  /** Every visited cell is inside the padding, and free. */
  ghost predicate AllFree(cells: seq<Cell>, C: seq<seq<real>>, h: nat, w: nat)
    requires IsGrid(C, h, w)
  {
    forall k :: 0 <= k < |cells| ==>
      InGrid(cells[k], h, w) && !OnBorder(cells[k], h, w) && C[cells[k].0][cells[k].1] <= 1.0
  }

  /** The smallest value in a non-empty 2-D array, and a cell holding it. */
  method ArrayMin(a: array2<real>) returns (m: real, ghost at: Cell)
    requires a.Length0 > 0 && a.Length1 > 0
    ensures InGrid(at, a.Length0, a.Length1) && a[at.0, at.1] == m
    ensures forall i, j :: 0 <= i < a.Length0 && 0 <= j < a.Length1 ==> m <= a[i, j]
  {
    m := a[0, 0];
    at := (0, 0);
    for i := 0 to a.Length0
      invariant InGrid(at, a.Length0, a.Length1) && a[at.0, at.1] == m
      invariant forall i', j' :: 0 <= i' < i && 0 <= j' < a.Length1 ==> m <= a[i', j']
    {
      for j := 0 to a.Length1
        invariant InGrid(at, a.Length0, a.Length1) && a[at.0, at.1] == m
        invariant forall i', j' :: 0 <= i' < i && 0 <= j' < a.Length1 ==> m <= a[i', j']
        invariant forall j' :: 0 <= j' < j ==> m <= a[i, j']
      {
        if a[i, j] < m {
          m := a[i, j];
          at := (i, j);
        }
      }
    }
  }

  ghost predicate WorkingInv(working: array2<real>, C: seq<seq<real>>, h: nat, w: nat)
    reads working
    requires IsGrid(C, h, w) && working.Length0 == h && working.Length1 == w
  {
    forall i, j :: 0 <= i < h && 0 <= j < w ==>
      working[i, j] == C[i][j] || (working[i, j] == Visited && C[i][j] <= 1.0)
  }

  ghost predicate RevealedInv(revealed: array2<real>, working: array2<real>, start: Cell, visited: seq<Cell>, h: nat, w: nat)
    reads revealed, working
    requires revealed.Length0 == h && revealed.Length1 == w && working.Length0 == h && working.Length1 == w
  {
    forall i, j {:trigger revealed[i, j]} :: 0 <= i < h && 0 <= j < w ==>
      (revealed[i, j] == Wall || revealed[i, j] == working[i, j] || ((i, j) == start && revealed[i, j] == Visited))
      && (revealed[i, j] < Wall ==> (i, j) == start || Near(visited, (i, j)))
  }

  /**
   * What the walk knows of the cells it expanded: exactly they are marked
   * visited in the working costs, and every neighbour of one shows its
   * working cost in the frontier.
   */
  ghost predicate Tracked(revealed: array2<real>, working: array2<real>, visited: seq<Cell>, h: nat, w: nat)
    reads revealed, working
    requires revealed.Length0 == h && revealed.Length1 == w && working.Length0 == h && working.Length1 == w
  {
    (forall k :: 0 <= k < |visited| ==> InGrid(visited[k], h, w) && working[visited[k].0, visited[k].1] == Visited)
    && (forall i, j {:trigger working[i, j]} :: 0 <= i < h && 0 <= j < w && working[i, j] == Visited ==> (i, j) in visited)
    && (forall k, i, j {:trigger visited[k], revealed[i, j]} ::
          0 <= k < |visited| && 0 <= i < h && 0 <= j < w && Adjacent(visited[k], (i, j)) ==> revealed[i, j] == working[i, j])
  }

  lemma NearGrows(cells: seq<Cell>, c: Cell, d: Cell)
    requires Near(cells, d)
    ensures Near(cells + [c], d)
  {
    var k :| 0 <= k < |cells| && Adjacent(cells[k], d);
    assert (cells + [c])[k] == cells[k];
  }

  lemma ChainGrows(cells: seq<Cell>, start: Cell, c: Cell)
    requires Chain(cells, start)
    requires cells == [] ==> c == start
    requires cells != [] ==> c == start || Near(cells, c)
    ensures Chain(cells + [c], start)
  {
    var next := cells + [c];
    if cells != [] && c == start {
      assert Adjacent(cells[0], c);
    }
    forall k | 0 < k < |next| ensures Near(next[..k], next[k]) {
      if k < |cells| {
        assert next[..k] == cells[..k];
      } else {
        assert next[..k] == cells;
      }
    }
  }

  /**
   * One expansion of the walk: the chosen cell is marked visited in the
   * working costs and its 3 by 3 neighbourhood is copied into the frontier.
   */
  method Expand(revealed: array2<real>, working: array2<real>, ghost C: seq<seq<real>>, h: nat, w: nat,
                ghost start: Cell, ghost visited: seq<Cell>, row: int, col: int)
    requires revealed != working && IsGrid(C, h, w)
    requires revealed.Length0 == h && revealed.Length1 == w && working.Length0 == h && working.Length1 == w
    requires WorkingInv(working, C, h, w) && RevealedInv(revealed, working, start, visited, h, w)
    requires InGrid(start, h, w) && revealed[start.0, start.1] <= Visited && C[start.0][start.1] <= 1.0
    requires InGrid((row, col), h, w) && !OnBorder((row, col), h, w) && C[row][col] <= 1.0
    requires (row, col) == start || Near(visited, (row, col))
    requires Tracked(revealed, working, visited, h, w)
    modifies revealed, working
    ensures WorkingInv(working, C, h, w) && RevealedInv(revealed, working, start, visited + [(row, col)], h, w)
    ensures Tracked(revealed, working, visited + [(row, col)], h, w)
    ensures revealed[start.0, start.1] <= Visited
    ensures forall i, j {:trigger revealed[i, j]} :: 0 <= i < h && 0 <= j < w && !Adjacent((row, col), (i, j)) ==>
              revealed[i, j] == old(revealed[i, j])
    ensures forall i, j {:trigger working[i, j]} :: 0 <= i < h && 0 <= j < w && (i, j) != (row, col) ==>
              working[i, j] == old(working[i, j])
    ensures forall i, j {:trigger revealed[i, j]} :: 0 <= i < h && 0 <= j < w && Adjacent((row, col), (i, j)) ==>
              revealed[i, j] == working[i, j]
    ensures working[row, col] == Visited
  {
    MarkVisited(working, C, h, w, row, col);
    Reveal(revealed, working, h, w, row, col);
    ghost var next := visited + [(row, col)];
    forall i, j | 0 <= i < h && 0 <= j < w && revealed[i, j] < Wall
      ensures (i, j) == start || Near(next, (i, j))
    {
      if Adjacent((row, col), (i, j)) {
        assert Adjacent(next[|visited|], (i, j));
      } else if (i, j) != start {
        NearGrows(visited, (row, col), (i, j));
      }
    }
  }

  /** `modifiable_costs_array_padded[row, col] = 7`. */
  method MarkVisited(working: array2<real>, ghost C: seq<seq<real>>, h: nat, w: nat, row: int, col: int)
    requires IsGrid(C, h, w) && working.Length0 == h && working.Length1 == w
    requires WorkingInv(working, C, h, w) && InGrid((row, col), h, w) && C[row][col] <= 1.0
    modifies working
    ensures WorkingInv(working, C, h, w) && working[row, col] == Visited
    ensures forall i, j {:trigger working[i, j]} :: 0 <= i < h && 0 <= j < w && (i, j) != (row, col) ==>
              working[i, j] == old(working[i, j])
  {
    working[row, col] := Visited;
  }

  /** `revealed_array[row-1:row+2, col-1:col+2] = modifiable_costs_array_padded[row-1:row+2, col-1:col+2]`. */
  method Reveal(revealed: array2<real>, working: array2<real>, h: nat, w: nat, row: int, col: int)
    requires revealed != working
    requires revealed.Length0 == h && revealed.Length1 == w && working.Length0 == h && working.Length1 == w
    requires 1 <= row < h - 1 && 1 <= col < w - 1
    modifies revealed
    ensures forall i, j {:trigger revealed[i, j]} :: 0 <= i < h && 0 <= j < w ==>
              revealed[i, j] == if Adjacent((row, col), (i, j)) then working[i, j] else old(revealed[i, j])
  {
    forall i, j | row - 1 <= i <= row + 1 && col - 1 <= j <= col + 1 {
      revealed[i, j] := working[i, j];
    }
  }

  lemma AllFreeGrows(cells: seq<Cell>, C: seq<seq<real>>, h: nat, w: nat, c: Cell)
    requires IsGrid(C, h, w) && AllFree(cells, C, h, w)
    requires InGrid(c, h, w) && !OnBorder(c, h, w) && C[c.0][c.1] <= 1.0
    ensures AllFree(cells + [c], C, h, w)
  {
    var next := cells + [c];
    forall k | 0 <= k < |next|
      ensures InGrid(next[k], h, w) && !OnBorder(next[k], h, w) && C[next[k].0][next[k].1] <= 1.0
    {
      if k < |cells| {
        assert next[k] == cells[k];
      }
    }
  }

  /** A cell holding the frontier minimum is the start or touches a visited cell, and is free. */
  lemma ChosenCell(revealed: array2<real>, working: array2<real>, C: seq<seq<real>>, h: nat, w: nat,
                   start: Cell, visited: seq<Cell>, row: int, col: int)
    requires WalkGrid(C, h, w)
    requires revealed.Length0 == h && revealed.Length1 == w && working.Length0 == h && working.Length1 == w
    requires WorkingInv(working, C, h, w) && RevealedInv(revealed, working, start, visited, h, w)
    requires InGrid(start, h, w) && revealed[start.0, start.1] <= Visited && C[start.0][start.1] <= 1.0
    requires InGrid((row, col), h, w) && revealed[row, col] <= revealed[start.0, start.1]
    ensures (row, col) == start || Near(visited, (row, col))
    ensures !OnBorder((row, col), h, w) && C[row][col] <= 1.0
  {
    assert revealed[row, col] < Wall;
    if (row, col) != start {
      assert revealed[row, col] == working[row, col];
    }
  }

  /** The two arrays at the start of a walk: the frontier all walls but the start, the working costs a copy of `C`. */
  method NewArrays(C: seq<seq<real>>, h: nat, w: nat, start: Cell) returns (revealed: array2<real>, working: array2<real>)
    requires IsGrid(C, h, w) && InGrid(start, h, w)
    ensures fresh(revealed) && fresh(working) && revealed != working
    ensures revealed.Length0 == h && revealed.Length1 == w && working.Length0 == h && working.Length1 == w
    ensures forall i, j :: 0 <= i < h && 0 <= j < w ==> working[i, j] == C[i][j]
    ensures forall i, j {:trigger revealed[i, j]} :: 0 <= i < h && 0 <= j < w ==> revealed[i, j] == if (i, j) == start then Visited else Wall
  {
    revealed := new real[h, w]((i, j) => if (i, j) == start then Visited else Wall);
    working := new real[h, w]((i, j) requires 0 <= i < h && 0 <= j < w => C[i][j]);
  }

  // ------------------------------------------- what a walk cannot miss

  /** A cell of the walk grid `C` a walk may enter: inside the padding, and free. */
  ghost predicate Open(C: seq<seq<real>>, h: nat, w: nat, c: Cell)
    requires IsGrid(C, h, w)
  {
    InGrid(c, h, w) && !OnBorder(c, h, w) && C[c.0][c.1] <= 1.0
  }

  /** On the walk grid `C`, `goal` is an open cell joined to `start` by king moves over open cells. */
  ghost predicate Linked(C: seq<seq<real>>, h: nat, w: nat, start: Cell, goal: Cell)
    requires IsGrid(C, h, w)
  {
    Open(C, h, w, goal)
    && exists path: seq<Cell> :: Chain(path, start) && AllFree(path, C, h, w) && (goal == start || Near(path, goal))
  }

  /** No open cell touching one of `cells` is missing from them. */
  ghost predicate Closed(cells: seq<Cell>, C: seq<seq<real>>, h: nat, w: nat)
    requires IsGrid(C, h, w)
  {
    forall k, c {:trigger cells[k], Open(C, h, w, c)} ::
      0 <= k < |cells| && Adjacent(cells[k], c) && Open(C, h, w, c) ==> c in cells
  }

  /** A set of cells that contains the start and is closed contains every cell of a chain from the start. */
  lemma {:induction false} ChainCovered(path: seq<Cell>, cells: seq<Cell>, C: seq<seq<real>>, h: nat, w: nat, start: Cell, n: nat)
    requires IsGrid(C, h, w) && Closed(cells, C, h, w) && start in cells
    requires Chain(path, start) && AllFree(path, C, h, w) && n <= |path|
    ensures forall k :: 0 <= k < n ==> path[k] in cells
  {
    if n > 0 {
      ChainCovered(path, cells, C, h, w, start, n - 1);
      var k := n - 1;
      if k > 0 {
        var m :| 0 <= m < k && Adjacent(path[..k][m], path[k]);
        assert path[m] in cells;
        var q :| 0 <= q < |cells| && cells[q] == path[m];
        assert Open(C, h, w, path[k]);
      }
    }
  }

  /** A closed set of cells around the start holds every goal linked to the start. */
  lemma LinkedCovered(cells: seq<Cell>, C: seq<seq<real>>, h: nat, w: nat, start: Cell, goal: Cell)
    requires IsGrid(C, h, w) && Closed(cells, C, h, w) && start in cells
    requires Linked(C, h, w, start, goal)
    ensures goal in cells
  {
    var path :| Chain(path, start) && AllFree(path, C, h, w) && (goal == start || Near(path, goal));
    if goal != start {
      ChainCovered(path, cells, C, h, w, start, |path|);
      var m :| 0 <= m < |path| && Adjacent(path[m], goal);
      var q :| 0 <= q < |cells| && cells[q] == path[m];
    }
  }

  /**
   * Once no frontier cell lies below the visited mark, the expanded cells
   * are closed: every open neighbour of one shows its working cost, which
   * can then only be the visited mark.
   */
  lemma StuckClosed(revealed: array2<real>, working: array2<real>, C: seq<seq<real>>, h: nat, w: nat, visited: seq<Cell>)
    requires IsGrid(C, h, w)
    requires revealed.Length0 == h && revealed.Length1 == w && working.Length0 == h && working.Length1 == w
    requires WorkingInv(working, C, h, w) && Tracked(revealed, working, visited, h, w)
    requires forall i, j :: 0 <= i < h && 0 <= j < w ==> Visited <= revealed[i, j]
    ensures Closed(visited, C, h, w)
  {
    forall k, c | 0 <= k < |visited| && Adjacent(visited[k], c) && Open(C, h, w, c) ensures c in visited {
      assert revealed[c.0, c.1] == working[c.0, c.1];
    }
  }

  /**
   * While the goal is linked to the start and not yet met, the cell a
   * walk picks has never been expanded: were the frontier minimum the
   * visited mark, the expanded cells would be closed and hold the goal.
   */
  lemma FreshChoice(revealed: array2<real>, working: array2<real>, C: seq<seq<real>>, h: nat, w: nat,
                    start: Cell, goal: Cell, visited: seq<Cell>, row: int, col: int)
    requires WalkGrid(C, h, w)
    requires revealed.Length0 == h && revealed.Length1 == w && working.Length0 == h && working.Length1 == w
    requires WorkingInv(working, C, h, w) && RevealedInv(revealed, working, start, visited, h, w)
    requires Tracked(revealed, working, visited, h, w) && Chain(visited, start) && goal !in visited
    requires Linked(C, h, w, start, goal)
    requires InGrid((row, col), h, w) && forall i, j :: 0 <= i < h && 0 <= j < w ==> revealed[row, col] <= revealed[i, j]
    ensures (row, col) !in visited
  {
    if visited != [] {
      if Visited <= revealed[row, col] {
        StuckClosed(revealed, working, C, h, w, visited);
        assert visited[0] == start;
        LinkedCovered(visited, C, h, w, start, goal);
        assert false;
      }
      assert revealed[row, col] == working[row, col];
    }
  }

  lemma DistinctGrows(cells: seq<Cell>, c: Cell)
    requires Distinct(cells) && c !in cells
    ensures Distinct(cells + [c])
  {
  }

  /** The cells of row `r` in a set have at most `w` members. */
  lemma {:induction false} RowBound(s: set<Cell>, r: int, w: nat)
    requires forall c :: c in s ==> c.0 == r && 0 <= c.1 < w
    ensures |s| <= w
  {
    if w > 0 {
      var last := set c | c in s && c.1 == w - 1;
      assert last == if (r, w - 1) in s then {(r, w - 1)} else {};
      RowBound(s - last, r, w - 1);
      assert s == (s - last) + last;
    } else {
      assert s == {};
    }
  }

  /** A set of cells of an `h` by `w` grid has at most `Cells(h, w)` members. */
  lemma {:induction false} CellSetBound(s: set<Cell>, h: nat, w: nat)
    requires forall c :: c in s ==> InGrid(c, h, w)
    ensures |s| <= Cells(h, w)
  {
    if h > 0 {
      var top := set c | c in s && c.0 == h - 1;
      RowBound(top, h - 1, w);
      CellSetBound(s - top, h - 1, w);
    } else {
      assert s == {};
    }
  }

  /** A sequence without repeats has as many elements as its set. */
  lemma {:induction false} DistinctCard(cells: seq<Cell>)
    requires Distinct(cells)
    ensures |set c | c in cells| == |cells|
  {
    if cells != [] {
      var init := cells[..|cells| - 1];
      DistinctCard(init);
      assert (set c | c in cells) == (set c | c in init) + {cells[|cells| - 1]};
    }
  }

  /** More than `Cells(h, w)` cells of the grid, in order, repeat one. */
  lemma RunawayUnlinked(C: seq<seq<real>>, h: nat, w: nat, start: Cell, goal: Cell, visited: seq<Cell>)
    requires IsGrid(C, h, w) && AllFree(visited, C, h, w) && |visited| > Cells(h, w)
    requires Linked(C, h, w, start, goal) ==> Distinct(visited)
    ensures !Linked(C, h, w, start, goal)
  {
    if Linked(C, h, w, start, goal) {
      DistinctCard(visited);
      CellSetBound((set c | c in visited), h, w);
      assert false;
    }
  }

  datatype WalkOutcome = Reached | Runaway | OverBudget

  /**
   * `n * m` as `n` copies of `m` added up; the recursion keeps products of
   * grid sizes out of the solver's nonlinear arithmetic.
   */
  function Sum(n: nat, m: nat): nat {
    if n == 0 then 0 else m + Sum(n - 1, m)
  }

  lemma {:induction false} SumIsProduct(n: nat, m: nat)
    ensures Sum(n, m) == n * m
  {
    if n > 0 {
      SumIsProduct(n - 1, m);
    }
  }

  /** The number of cells of an `h` by `w` grid. */
  function Cells(h: nat, w: nat): nat {
    Sum(h, w)
  }

  /**
   * One greedy walk (a_star.py:221-242) on the padded cost grid `C` from
   * `start` to `goal`. `revealed` is the frontier array, `working` the
   * working copy of the costs. Each step picks any cell holding the
   * frontier minimum (the random tie-break), stops if it is the goal,
   * otherwise marks it visited and copies its 3 by 3 neighbourhood from
   * the working costs into the frontier. The walk gives up once it has
   * taken more than `h * w` steps, and when a budget (the best total so
   * far) is given, once `prior` plus its steps exceed it; every step but
   * the last stays within the budget.
   *
   * `visited` lists the cells the walk expanded: each is a free cell
   * touching an earlier one, so a goal that is reached is joined to the
   * start by a chain of free cells. While the goal is linked to the start
   * no cell is expanded twice, so a walk that runs away had a goal cut
   * off from its start.
   */
  method Walk(C: seq<seq<real>>, h: nat, w: nat, start: Cell, goal: Cell, prior: nat, budget: Option<nat>)
    returns (outcome: WalkOutcome, numSteps: nat, ghost visited: seq<Cell>)
    requires WalkGrid(C, h, w)
    requires InGrid(start, h, w) && C[start.0][start.1] <= 1.0
    ensures outcome == Reached ==> 1 <= numSteps <= Cells(h, w) + 1 && |visited| == numSteps - 1
    ensures outcome == Reached ==>
      InGrid(goal, h, w) && C[goal.0][goal.1] <= 1.0 && (goal == start || Near(visited, goal))
    ensures outcome == Runaway ==> numSteps == Cells(h, w) + 1 && !Linked(C, h, w, start, goal)
    ensures outcome == OverBudget ==> budget.Some? && prior + numSteps > budget.value && numSteps <= Cells(h, w)
    ensures budget.Some? && numSteps >= 2 ==> prior + numSteps - 1 <= budget.value
    ensures Chain(visited, start) && AllFree(visited, C, h, w)
  {
    var revealed, working := NewArrays(C, h, w, start);
    numSteps := 0;
    visited := [];
    while true
      invariant WalkState(revealed, working, C, h, w, start, goal, visited)
      invariant numSteps <= Cells(h, w) && |visited| == numSteps
      invariant budget.Some? && numSteps >= 1 ==> prior + numSteps <= budget.value
      decreases Cells(h, w) - numSteps
    {
      numSteps := numSteps + 1;
      var row, col := Pick(revealed, working, C, h, w, start, goal, visited);
      if (row, col) == goal {
        outcome := Reached;
        return;
      }
      Advance(revealed, working, C, h, w, start, goal, visited, row, col);
      visited := visited + [(row, col)];
      if numSteps > Cells(h, w) {
        RunawayUnlinked(C, h, w, start, goal, visited);
        outcome := Runaway;
        return;
      }
      if budget.Some? && prior + numSteps > budget.value {
        outcome := OverBudget;
        return;
      }
    }
  }

  /** The state a walk keeps between steps, over the cells `visited` it expanded so far. */
  ghost predicate WalkState(revealed: array2<real>, working: array2<real>, C: seq<seq<real>>, h: nat, w: nat,
                            start: Cell, goal: Cell, visited: seq<Cell>)
    reads revealed, working
    requires IsGrid(C, h, w)
  {
    revealed.Length0 == h && revealed.Length1 == w && working.Length0 == h && working.Length1 == w
    && revealed != working && InGrid(start, h, w)
    && WorkingInv(working, C, h, w) && RevealedInv(revealed, working, start, visited, h, w)
    && revealed[start.0, start.1] <= Visited
    && Chain(visited, start) && AllFree(visited, C, h, w)
    && Tracked(revealed, working, visited, h, w) && goal !in visited
    && (Linked(C, h, w, start, goal) ==> Distinct(visited))
  }

  /**
   * The choice of one step: any cell holding the frontier minimum. It is
   * the start or touches an expanded cell, it is free, and while the goal
   * is linked to the start it was not expanded before.
   */
  method Pick(revealed: array2<real>, working: array2<real>, ghost C: seq<seq<real>>, h: nat, w: nat,
              ghost start: Cell, ghost goal: Cell, ghost visited: seq<Cell>)
    returns (row: int, col: int)
    requires WalkGrid(C, h, w) && WalkState(revealed, working, C, h, w, start, goal, visited)
    requires C[start.0][start.1] <= 1.0
    ensures InGrid((row, col), h, w) && !OnBorder((row, col), h, w) && C[row][col] <= 1.0
    ensures forall i, j :: 0 <= i < h && 0 <= j < w ==> revealed[row, col] <= revealed[i, j]
    ensures (row, col) == start || Near(visited, (row, col))
    ensures Linked(C, h, w, start, goal) ==> (row, col) !in visited
  {
    var m;
    ghost var at;
    m, at := ArrayMin(revealed);
    row, col :| 0 <= row < h && 0 <= col < w && revealed[row, col] == m;
    ChosenCell(revealed, working, C, h, w, start, visited, row, col);
    if Linked(C, h, w, start, goal) {
      FreshChoice(revealed, working, C, h, w, start, goal, visited, row, col);
    }
  }

  /** One expansion of a step whose chosen cell is not the goal; the walk state holds of the longer list. */
  method Advance(revealed: array2<real>, working: array2<real>, ghost C: seq<seq<real>>, h: nat, w: nat,
                 ghost start: Cell, ghost goal: Cell, ghost visited: seq<Cell>, row: int, col: int)
    requires WalkGrid(C, h, w) && WalkState(revealed, working, C, h, w, start, goal, visited)
    requires C[start.0][start.1] <= 1.0
    requires InGrid((row, col), h, w) && !OnBorder((row, col), h, w) && C[row][col] <= 1.0 && (row, col) != goal
    requires (row, col) == start || Near(visited, (row, col))
    requires Linked(C, h, w, start, goal) ==> (row, col) !in visited
    modifies revealed, working
    ensures WalkState(revealed, working, C, h, w, start, goal, visited + [(row, col)])
  {
    Expand(revealed, working, C, h, w, start, visited, row, col);
    ChainGrows(visited, start, (row, col));
    AllFreeGrows(visited, C, h, w, (row, col));
    if Linked(C, h, w, start, goal) {
      DistinctGrows(visited, (row, col));
    }
  }

  // ------------------------------------------ rotated start and goal

  /** The marker grid of `additional_gets`: `1` at the start, then `-1` written at the goal. */
  function MarkerGrid(msy: nat, msx: nat, start: Cell, goal: Cell): (g: seq<seq<real>>)
    ensures IsGrid(g, msy, msx)
  {
    seq(msy, r requires 0 <= r < msy => seq(msx, c requires 0 <= c < msx =>
      if (r, c) == goal then -1.0 else if (r, c) == start then 1.0 else 0.0))
  }

  /** numpy's `argmax`: the first index of a largest element. */
  function ArgMax(s: seq<real>): (k: nat)
    requires s != []
    ensures k < |s| && (forall j :: 0 <= j < |s| ==> s[j] <= s[k])
    ensures forall j :: 0 <= j < k ==> s[j] < s[k]
  {
    if |s| == 1 then 0
    else
      var k := ArgMax(s[1..]) + 1;
      assert forall j :: 1 <= j < |s| ==> s[j] == s[1..][j - 1];
      if s[0] >= s[k] then 0 else k
  }

  /** numpy's `argmin`: the first index of a smallest element. */
  function ArgMin(s: seq<real>): (k: nat)
    requires s != []
    ensures k < |s| && (forall j :: 0 <= j < |s| ==> s[k] <= s[j])
    ensures forall j :: 0 <= j < k ==> s[k] < s[j]
  {
    if |s| == 1 then 0
    else
      var k := ArgMin(s[1..]) + 1;
      assert forall j :: 1 <= j < |s| ==> s[j] == s[1..][j - 1];
      if s[0] <= s[k] then 0 else k
  }

  /**
   * The rotated start and goal as `additional_gets` computes them: turn the
   * marker grid, take the flat indices of its maximum and minimum, and
   * split each by the turned grid's width `msy`.
   */
  function RotatedPairAsWritten(msy: nat, msx: nat, start: Cell, goal: Cell): (Cell, Cell)
    requires msy > 0 && msx > 0
  {
    var flat := Flatten(Rot90(MarkerGrid(msy, msx, start, goal), msy, msx));
    var si := ArgMax(flat);
    var ei := ArgMin(flat);
    ((si / msy, si % msy), (ei / msy, ei % msy))
  }

  /** The unique extremum of a sequence is where `ArgMax` and `ArgMin` land. */
  lemma UniqueMax(s: seq<real>, p: nat)
    requires p < |s| && forall j :: 0 <= j < |s| && j != p ==> s[j] < s[p]
    ensures ArgMax(s) == p
  {
  }

  lemma UniqueMin(s: seq<real>, p: nat)
    requires p < |s| && forall j :: 0 <= j < |s| && j != p ==> s[p] < s[j]
    ensures ArgMin(s) == p
  {
  }

  lemma MulAtLeast(d: int, n: nat)
    requires d >= 1
    ensures d * n >= n
  {
    if d > 1 {
      MulAtLeast(d - 1, n);
      assert d * n == (d - 1) * n + n;
    }
  }

  lemma MulDiff(q: int, a: int, n: int)
    ensures q * n - a * n == (q - a) * n
  {
  }

  lemma SplitIndex(a: nat, b: nat, n: nat)
    requires b < n
    ensures (a * n + b) / n == a && (a * n + b) % n == b
  {
    var x := a * n + b;
    var q, r := x / n, x % n;
    assert x == q * n + r;
    MulDiff(q, a, n);
    assert (q - a) * n == b - r;
    if q > a {
      MulAtLeast(q - a, n);
    } else if q < a {
      MulAtLeast(a - q, n);
      MulDiff(a, q, n);
    }
  }

  /** A flat index of the turned `msx` by `msy` grid names the cell it was derived from. */
  lemma FlatCell(msy: nat, msx: nat, k: nat, c: Cell)
    requires InGrid(c, msx, msy) && k == c.0 * msy + c.1
    ensures (k / msy, k % msy) == c
  {
    SplitIndex(c.0, c.1, msy);
  }

  /** Flattened, the turned marker grid holds the marker of `c` at the flat index of `c`'s turned position. */
  lemma FlatMarker(msy: nat, msx: nat, start: Cell, goal: Cell, c: Cell)
    requires InGrid(c, msy, msx)
    ensures var R := Rot90(MarkerGrid(msy, msx, start, goal), msy, msx);
            var q := RotatePoint(msx, c);
            |Flatten(R)| == msx * msy && 0 <= q.0 * msy + q.1 < msx * msy
            && Flatten(R)[q.0 * msy + q.1] == MarkerGrid(msy, msx, start, goal)[c.0][c.1]
  {
    var R := Rot90(MarkerGrid(msy, msx, start, goal), msy, msx);
    var q := RotatePoint(msx, c);
    assert 0 <= q.0 * msy by {
      if q.0 > 0 {
        MulAtLeast(q.0, msy);
      }
    }
    RotatedCell(MarkerGrid(msy, msx, start, goal), msy, msx, c);
    FlattenIndex(R, msx, msy, q.0, q.1);
  }

  /** Every flat index of the turned marker grid comes from one cell of the maze. */
  lemma FlatSource(msy: nat, msx: nat, start: Cell, goal: Cell, k: nat)
    requires msy > 0 && msx > 0 && k < msx * msy
    ensures var R := Rot90(MarkerGrid(msy, msx, start, goal), msy, msx);
            var c := (k % msy, msx - 1 - k / msy);
            |Flatten(R)| == msx * msy && InGrid(c, msy, msx) && RotatePoint(msx, c).0 * msy + RotatePoint(msx, c).1 == k
            && Flatten(R)[k] == MarkerGrid(msy, msx, start, goal)[c.0][c.1]
  {
    var R := Rot90(MarkerGrid(msy, msx, start, goal), msy, msx);
    var i, j := k / msy, k % msy;
    assert k == i * msy + j;
    assert i < msx;
    var c := (j, msx - 1 - i);
    FlatMarker(msy, msx, start, goal, c);
  }

  /** With distinct start and goal the computation above gives the turned cells. */
  lemma RotatedPairAsWrittenAgrees(msy: nat, msx: nat, start: Cell, goal: Cell)
    requires InGrid(start, msy, msx) && InGrid(goal, msy, msx) && start != goal
    ensures RotatedPairAsWritten(msy, msx, start, goal) == (RotatePoint(msx, start), RotatePoint(msx, goal))
  {
    var R := Rot90(MarkerGrid(msy, msx, start, goal), msy, msx);
    var flat := Flatten(R);
    var qs, qg := RotatePoint(msx, start), RotatePoint(msx, goal);
    var ps, pg := qs.0 * msy + qs.1, qg.0 * msy + qg.1;
    FlatMarker(msy, msx, start, goal, start);
    FlatMarker(msy, msx, start, goal, goal);
    forall k | 0 <= k < |flat| && k != ps ensures flat[k] < flat[ps] {
      FlatSource(msy, msx, start, goal, k);
    }
    forall k | 0 <= k < |flat| && k != pg ensures flat[pg] < flat[k] {
      FlatSource(msy, msx, start, goal, k);
    }
    UniqueMax(flat, ps);
    UniqueMin(flat, pg);
    RotatedCell(MarkerGrid(msy, msx, start, goal), msy, msx, start);
    RotatedCell(MarkerGrid(msy, msx, start, goal), msy, msx, goal);
    FlatCell(msy, msx, ps, qs);
    FlatCell(msy, msx, pg, qg);
  }

  /** `argmax` is 0 when the first element is a largest one. */
  lemma ArgMaxFirst(s: seq<real>)
    requires s != [] && forall j :: 0 <= j < |s| ==> s[j] <= s[0]
    ensures ArgMax(s) == 0
  {
  }

  /**
   * When start and goal coincide the goal marker overwrites the start
   * marker, `argmax` finds the first zero instead, and the turned start
   * is wrong: with both at `(0, 0)` on a maze at least two columns wide
   * it comes out as `(0, 0)` instead of `(msx - 1, 0)` (on a 2 by 2 maze,
   * `(0, 0)` instead of `(1, 0)`).
   */
  lemma RotatedPairAsWrittenWrong(msy: nat, msx: nat)
    requires msy >= 1 && msx >= 2
    ensures RotatedPairAsWritten(msy, msx, (0, 0), (0, 0)).0 == (0, 0)
    ensures RotatePoint(msx, (0, 0)) == (msx - 1, 0) != (0, 0)
  {
    var marker := MarkerGrid(msy, msx, (0, 0), (0, 0));
    var f := Flatten(Rot90(marker, msy, msx));
    FlatSource(msy, msx, (0, 0), (0, 0), 0);
    assert f[0] == marker[0][msx - 1] == 0.0;
    forall k | 0 <= k < |f| ensures f[k] <= f[0] {
      FlatSource(msy, msx, (0, 0), (0, 0), k);
    }
    ArgMaxFirst(f);
    SplitIndex(0, 0, msy);
  }

  // ------------------------------------------------- cost fields

  /** The bindings handed to the heuristic for a pair whose goal is `goal`; `goal_x` is the goal's column. */
  function PairEnv(stateX: seq<seq<real>>, stateY: seq<seq<real>>, goal: Cell): (env: Env)
    ensures env.Keys == {StateX, StateY, GoalX, GoalY}
    ensures env[StateX] == Grid(stateX) && env[StateY] == Grid(stateY)
    ensures env[GoalX] == Scalar(goal.1 as real) && env[GoalY] == Scalar(goal.0 as real)
  {
    map[StateX := Grid(stateX), StateY := Grid(stateY), GoalX := Scalar(goal.1 as real), GoalY := Scalar(goal.0 as real)]
  }

  /** Those bindings with the coordinate grids of an `msy` by `msx` maze. */
  function CoordEnv(goal: Cell, msy: nat, msx: nat): (env: Env)
    ensures Shaped(env, msy, msx) && env.Keys == {StateX, StateY, GoalX, GoalY}
  {
    PairEnv(StateXGrid(msy, msx), StateYGrid(msy, msx), goal)
  }

  /** A cost field is a grid exactly when the heuristic reads a coordinate grid. */
  lemma GridIffState(h: Program, goal: Cell, msy: nat, msx: nat)
    requires InVocabulary(h)
    ensures Interpret(h, CoordEnv(goal, msy, msx), msy, msx).Grid? <==> ReadsState(h)
  {
    var env := CoordEnv(goal, msy, msx);
    if Interpret(h, env, msy, msx).Grid? {
      var x :| x in Vars(h) && env[x].Grid?;
      assert x == StateX || x == StateY;
    }
    if StateX in Vars(h) {
      assert env[StateX].Grid?;
    } else if StateY in Vars(h) {
      assert env[StateY].Grid?;
    }
  }

  /** The raw cost field of a pair: the heuristic over the whole maze. */
  function CostField(h: Program, goal: Cell, msy: nat, msx: nat): (g: seq<seq<real>>)
    requires InVocabulary(h) && ReadsState(h)
    ensures IsGrid(g, msy, msx)
  {
    GridIffState(h, goal, msy, msx);
    Interpret(h, CoordEnv(goal, msy, msx), msy, msx).cells
  }

  /** The normalised cost field of a pair, the layer its walks use. */
  function Layer(h: Program, goal: Cell, msy: nat, msx: nat): (g: seq<seq<real>>)
    requires InVocabulary(h) && ReadsState(h) && msy > 0 && msx > 0
    ensures IsGrid(g, msy, msx)
  {
    Normalize(CostField(h, goal, msy, msx), msy, msx)
  }

  /** The fingerprint window of a pair, cut around its start from the normalised or the raw field. */
  function CostPart(h: Program, start: Cell, goal: Cell, msy: nat, msx: nat, normalized: bool): seq<seq<real>>
    requires InVocabulary(h) && ReadsState(h) && msy >= 6 && msx >= 6 && InGrid(start, msy, msx)
  {
    var rows := WindowBounds(start.0, msy);
    var cols := WindowBounds(start.1, msx);
    WindowInside(start.0, msy);
    WindowInside(start.1, msx);
    Window(if normalized then Layer(h, goal, msy, msx) else CostField(h, goal, msy, msx),
           msy, msx, rows.0, rows.1, cols.0, cols.1)
  }

  /** The layers of the first `n` pairs, whose goals are `ends`, in order. */
  function Layers(h: Program, ends: seq<Cell>, n: nat, msy: nat, msx: nat): (ls: seq<seq<seq<real>>>)
    requires InVocabulary(h) && ReadsState(h) && msy > 0 && msx > 0 && n <= |ends|
    ensures |ls| == n
  {
    if n == 0 then [] else Layers(h, ends, n - 1, msy, msx) + [Layer(h, ends[n - 1], msy, msx)]
  }

  /** The windows of the first `n` pairs `(starts[k], ends[k])`, in order. */
  function Parts(h: Program, starts: seq<Cell>, ends: seq<Cell>, n: nat, msy: nat, msx: nat, normalized: bool): (ps: seq<seq<seq<real>>>)
    requires InVocabulary(h) && ReadsState(h) && msy >= 6 && msx >= 6 && n <= |starts| == |ends|
    requires forall k :: 0 <= k < |starts| ==> InGrid(starts[k], msy, msx)
    ensures |ps| == n
  {
    if n == 0 then []
    else Parts(h, starts, ends, n - 1, msy, msx, normalized) + [CostPart(h, starts[n - 1], ends[n - 1], msy, msx, normalized)]
  }

  /** The layers stacked into one sequence of cells, layer after layer, each row-major. */
  function Stack(layers: seq<seq<seq<real>>>): seq<real> {
    Flatten(seq(|layers|, k requires 0 <= k < |layers| => Flatten(layers[k])))
  }

  /**
   * The duplicate-check key of a heuristic (`costs_part_full.flatten()`):
   * the windows of the first `n` pairs, each flattened row by row, laid
   * end to end.
   */
  function Fingerprint(h: Program, starts: seq<Cell>, ends: seq<Cell>, n: nat, msy: nat, msx: nat, normalized: bool): seq<real>
    requires InVocabulary(h) && ReadsState(h) && msy >= 6 && msx >= 6 && n <= |starts| == |ends|
    requires forall k :: 0 <= k < |starts| ==> InGrid(starts[k], msy, msx)
  {
    if n == 0 then []
    else Fingerprint(h, starts, ends, n - 1, msy, msx, normalized) + Flatten(CostPart(h, starts[n - 1], ends[n - 1], msy, msx, normalized))
  }

  /** The key is the row-major flattening of the stacked windows. */
  lemma {:induction false} FingerprintStack(h: Program, starts: seq<Cell>, ends: seq<Cell>, n: nat, msy: nat, msx: nat, normalized: bool)
    requires InVocabulary(h) && ReadsState(h) && msy >= 6 && msx >= 6 && n <= |starts| == |ends|
    requires forall k :: 0 <= k < |starts| ==> InGrid(starts[k], msy, msx)
    ensures Fingerprint(h, starts, ends, n, msy, msx, normalized) == Stack(Parts(h, starts, ends, n, msy, msx, normalized))
  {
    if n > 0 {
      FingerprintStack(h, starts, ends, n - 1, msy, msx, normalized);
      StackAppend(Parts(h, starts, ends, n - 1, msy, msx, normalized), CostPart(h, starts[n - 1], ends[n - 1], msy, msx, normalized));
    }
  }

  /** Stacking one more layer appends its flattening. */
  lemma StackAppend(layers: seq<seq<seq<real>>>, g: seq<seq<real>>)
    ensures Stack(layers + [g]) == Stack(layers) + Flatten(g)
  {
    var rows := seq(|layers|, k requires 0 <= k < |layers| => Flatten(layers[k]));
    var next := layers + [g];
    assert seq(|next|, k requires 0 <= k < |next| => Flatten(next[k])) == rows + [Flatten(g)];
    FlattenAppend(rows, Flatten(g));
  }


  /** Some cell of some layer exceeds `bound`. */
  ghost predicate AnyAbove(layers: seq<seq<seq<real>>>, bound: real) {
    exists k, i, j :: 0 <= k < |layers| && 0 <= i < |layers[k]| && 0 <= j < |layers[k][i]| && layers[k][i][j] > bound
  }

  /** Layer `k` of the first `n` pairs is one a walk can run on. */
  lemma {:induction false} LayerAtInUnit(h: Program, ends: seq<Cell>, n: nat, msy: nat, msx: nat, k: nat)
    requires InVocabulary(h) && ReadsState(h) && msy > 0 && msx > 0 && k < n <= |ends|
    ensures UnitLayer(Layers(h, ends, n, msy, msx)[k], msy, msx)
  {
    if k < n - 1 {
      LayerAtInUnit(h, ends, n - 1, msy, msx, k);
    } else {
      LayerInUnit(h, ends[n - 1], msy, msx);
    }
  }

  /** Every layer of the first `n` pairs is one a walk can run on. */
  lemma LayersInUnit(h: Program, ends: seq<Cell>, n: nat, msy: nat, msx: nat)
    requires InVocabulary(h) && ReadsState(h) && msy > 0 && msx > 0 && n <= |ends|
    ensures WalkLayers(Layers(h, ends, n, msy, msx), n, msy, msx)
  {
    forall k | 0 <= k < n
      ensures UnitLayer(Layers(h, ends, n, msy, msx)[k], msy, msx)
    {
      LayerAtInUnit(h, ends, n, msy, msx, k);
    }
  }

  /** No cell of a pair's layer is above 1. */
  lemma LayerInUnit(h: Program, goal: Cell, msy: nat, msx: nat)
    requires InVocabulary(h) && ReadsState(h) && msy > 0 && msx > 0
    ensures UnitLayer(Layer(h, goal, msy, msx), msy, msx)
  {
    NormalizeInUnit(CostField(h, goal, msy, msx), msy, msx);
  }

  /**
   * The "max cost exceeded" rejection never fires: the normalised layers of
   * all pairs, stacked, have no cell above 1.
   */
  lemma NeverExceeded(h: Program, ends: seq<Cell>, msy: nat, msx: nat)
    requires InVocabulary(h) && ReadsState(h) && msy > 0 && msx > 0 && ends != []
    ensures var layers := Layers(h, ends, |ends|, msy, msx);
            Stack(layers) != [] && SeqMax(Stack(layers)) <= 1.0 && WalkLayers(layers, |ends|, msy, msx)
  {
    var layers := Layers(h, ends, |ends|, msy, msx);
    LayersInUnit(h, ends, |ends|, msy, msx);
    assert UnitLayer(layers[0], msy, msx);
    StackNonEmpty(layers);
    StackMaxAbove(layers, 1.0);
    forall k, i, j | 0 <= k < |layers| && 0 <= i < |layers[k]| && 0 <= j < |layers[k][i]|
      ensures layers[k][i][j] <= 1.0
    {
      assert UnitLayer(layers[k], msy, msx);
    }
  }

  /** `np.max` of the stacked layers exceeds a bound exactly when some cell does. */
  lemma StackNonEmpty(layers: seq<seq<seq<real>>>)
    requires layers != [] && layers[0] != [] && layers[0][0] != []
    ensures Stack(layers) != []
  {
    assert Flatten(layers[0]) != [];
  }

  lemma StackMaxAbove(layers: seq<seq<seq<real>>>, bound: real)
    requires Stack(layers) != []
    ensures SeqMax(Stack(layers)) > bound <==> AnyAbove(layers, bound)
  {
    var rows := seq(|layers|, k requires 0 <= k < |layers| => Flatten(layers[k]));
    var m := SeqMax(Stack(layers));
    FlattenFrom(rows, m);
    var k, p :| 0 <= k < |rows| && 0 <= p < |rows[k]| && rows[k][p] == m;
    FlattenFrom(layers[k], m);
    if AnyAbove(layers, bound) {
      var k', i, j :| 0 <= k' < |layers| && 0 <= i < |layers[k']| && 0 <= j < |layers[k'][i]| && layers[k'][i][j] > bound;
      FlattenHas(layers[k'], i, j);
      var q :| 0 <= q < |rows[k']| && rows[k'][q] == layers[k'][i][j];
      FlattenHas(rows, k', q);
    }
  }

  // ------------------------------------------------------ reachability

  /** A cell inside the maze and not blocked. */
  ghost predicate Free(maze: seq<seq<bool>>, msy: nat, msx: nat, c: Cell)
    requires IsGrid(maze, msy, msx)
  {
    InGrid(c, msy, msx) && !maze[c.0][c.1]
  }

  /** `goal` can be reached from `start` by king moves over free cells. */
  ghost predicate Connected(maze: seq<seq<bool>>, msy: nat, msx: nat, start: Cell, goal: Cell)
    requires IsGrid(maze, msy, msx)
  {
    exists path: seq<Cell> ::
      Chain(path, start) && (forall k :: 0 <= k < |path| ==> Free(maze, msy, msx, path[k]))
      && (goal == start || Near(path, goal))
  }

  /** The goals of the first `n` pairs are all connected to their starts. */
  ghost predicate ConnectedUpTo(maze: seq<seq<bool>>, msy: nat, msx: nat, starts: seq<Cell>, ends: seq<Cell>, n: nat)
    requires IsGrid(maze, msy, msx) && n <= |starts| && n <= |ends|
  {
    forall k :: 0 <= k < n ==> Connected(maze, msy, msx, starts[k], ends[k])
  }

  /** A shorter prefix of a connected prefix is connected. */
  lemma ConnectedPrefix(maze: seq<seq<bool>>, msy: nat, msx: nat, starts: seq<Cell>, ends: seq<Cell>, n: nat, m: nat)
    requires IsGrid(maze, msy, msx) && n <= |starts| && n <= |ends| && m <= n
    requires ConnectedUpTo(maze, msy, msx, starts, ends, n)
    ensures ConnectedUpTo(maze, msy, msx, starts, ends, m)
  {
  }

  lemma ConnectedNext(maze: seq<seq<bool>>, msy: nat, msx: nat, starts: seq<Cell>, ends: seq<Cell>, n: nat)
    requires IsGrid(maze, msy, msx) && n < |starts| && n < |ends|
    requires ConnectedUpTo(maze, msy, msx, starts, ends, n) && Connected(maze, msy, msx, starts[n], ends[n])
    ensures ConnectedUpTo(maze, msy, msx, starts, ends, n + 1)
  {
  }

  function Unpad(c: Cell): Cell {
    (c.0 - 1, c.1 - 1)
  }

  /** Cells of the padded grid moved back to maze coordinates. */
  function UnpadAll(cells: seq<Cell>): (r: seq<Cell>)
    ensures |r| == |cells| && forall k :: 0 <= k < |cells| ==> r[k] == Unpad(cells[k])
  {
    seq(|cells|, k requires 0 <= k < |cells| => Unpad(cells[k]))
  }

  lemma NearUnpad(cells: seq<Cell>, c: Cell)
    requires Near(cells, c)
    ensures Near(UnpadAll(cells), Unpad(c))
  {
    var m :| 0 <= m < |cells| && Adjacent(cells[m], c);
    assert Adjacent(UnpadAll(cells)[m], Unpad(c));
  }

  /** Moving a chain by one row and column keeps it a chain. */
  lemma ChainUnpad(cells: seq<Cell>, start: Cell)
    requires Chain(cells, start)
    ensures Chain(UnpadAll(cells), Unpad(start))
  {
    var path := UnpadAll(cells);
    forall k | 0 < k < |path| ensures Near(path[..k], path[k]) {
      NearUnpad(cells[..k], cells[k]);
      assert UnpadAll(cells[..k]) == path[..k];
    }
  }

  /** Cells a walk entered on the padded grid are free cells of the maze, one row and column up. */
  lemma FreeUnpad(C: seq<seq<real>>, maze: seq<seq<bool>>, msy: nat, msx: nat, cells: seq<Cell>)
    requires Unblocked(C, maze, msy, msx) && AllFree(cells, C, msy + 2, msx + 2)
    ensures forall k :: 0 <= k < |cells| ==> Free(maze, msy, msx, UnpadAll(cells)[k])
  {
    forall k | 0 <= k < |cells| ensures Free(maze, msy, msx, UnpadAll(cells)[k]) {
      var v := cells[k];
      assert InGrid(v, msy + 2, msx + 2) && !OnBorder(v, msy + 2, msx + 2) && C[v.0][v.1] <= 1.0;
    }
  }

  /** A walk that meets its goal on the padded, unturned maze connects the pair in the maze. */
  lemma WalkConnects(C: seq<seq<real>>, maze: seq<seq<bool>>, msy: nat, msx: nat,
                     start: Cell, goal: Cell, visited: seq<Cell>)
    requires Unblocked(C, maze, msy, msx)
    requires Chain(visited, (start.0 + 1, start.1 + 1)) && AllFree(visited, C, msy + 2, msx + 2)
    requires goal == start || Near(visited, (goal.0 + 1, goal.1 + 1))
    ensures Connected(maze, msy, msx, start, goal)
  {
    var path := UnpadAll(visited);
    ChainUnpad(visited, (start.0 + 1, start.1 + 1));
    FreeUnpad(C, maze, msy, msx, visited);
    if goal != start {
      NearUnpad(visited, (goal.0 + 1, goal.1 + 1));
    }
    assert Chain(path, start) && (forall k :: 0 <= k < |path| ==> Free(maze, msy, msx, path[k]))
      && (goal == start || Near(path, goal));
  }

  /** A maze cell moved into the padded grid. */
  function PadCell(c: Cell): Cell {
    (c.0 + 1, c.1 + 1)
  }

  /** Cells of the maze moved into the padded grid. */
  function PadAll(cells: seq<Cell>): (r: seq<Cell>)
    ensures |r| == |cells| && forall k :: 0 <= k < |cells| ==> r[k] == PadCell(cells[k])
  {
    seq(|cells|, k requires 0 <= k < |cells| => PadCell(cells[k]))
  }

  lemma NearPad(cells: seq<Cell>, c: Cell)
    requires Near(cells, c)
    ensures Near(PadAll(cells), PadCell(c))
  {
    var m :| 0 <= m < |cells| && Adjacent(cells[m], c);
    assert Adjacent(PadAll(cells)[m], PadCell(c));
  }

  lemma ChainPad(cells: seq<Cell>, start: Cell)
    requires Chain(cells, start)
    ensures Chain(PadAll(cells), PadCell(start))
  {
    var path := PadAll(cells);
    forall k | 0 < k < |path| ensures Near(path[..k], path[k]) {
      NearPad(cells[..k], cells[k]);
      assert PadAll(cells[..k]) == path[..k];
    }
  }

  /** Free cells of the maze, moved into the padded grid, are cells a walk may enter. */
  lemma FreePad(C: seq<seq<real>>, maze: seq<seq<bool>>, msy: nat, msx: nat, path: seq<Cell>)
    requires Passable(C, maze, msy, msx)
    requires forall k :: 0 <= k < |path| ==> Free(maze, msy, msx, path[k])
    ensures AllFree(PadAll(path), C, msy + 2, msx + 2)
  {
    var padded := PadAll(path);
    forall k | 0 <= k < |padded|
      ensures InGrid(padded[k], msy + 2, msx + 2) && !OnBorder(padded[k], msy + 2, msx + 2)
      ensures C[padded[k].0][padded[k].1] <= 1.0
    {
      assert Free(maze, msy, msx, path[k]);
    }
  }

  /** A path of free maze cells, moved into the padded grid, links its start to a free goal it touches. */
  lemma PathLinked(C: seq<seq<real>>, maze: seq<seq<bool>>, msy: nat, msx: nat, path: seq<Cell>, start: Cell, goal: Cell)
    requires Passable(C, maze, msy, msx) && Free(maze, msy, msx, goal)
    requires Chain(path, start) && (forall k :: 0 <= k < |path| ==> Free(maze, msy, msx, path[k]))
    requires goal == start || Near(path, goal)
    ensures Linked(C, msy + 2, msx + 2, PadCell(start), PadCell(goal))
  {
    var padded := PadAll(path);
    ChainPad(path, start);
    FreePad(C, maze, msy, msx, path);
    if goal != start {
      NearPad(path, goal);
    }
    var g := PadCell(goal);
    assert C[g.0][g.1] <= 1.0;
    assert Open(C, msy + 2, msx + 2, g);
    assert Chain(padded, PadCell(start)) && AllFree(padded, C, msy + 2, msx + 2)
      && (g == PadCell(start) || Near(padded, g));
  }

  /**
   * The converse of `WalkConnects`: a goal on a free cell that is
   * connected to its start in the maze is linked to it on the padded
   * grid, so a walk from it cannot run away.
   */
  lemma ConnectedLinked(C: seq<seq<real>>, maze: seq<seq<bool>>, msy: nat, msx: nat, start: Cell, goal: Cell)
    requires Passable(C, maze, msy, msx) && Free(maze, msy, msx, goal)
    ensures Connected(maze, msy, msx, start, goal) ==> Linked(C, msy + 2, msx + 2, PadCell(start), PadCell(goal))
  {
    if Connected(maze, msy, msx, start, goal) {
      var path :| Chain(path, start) && (forall k :: 0 <= k < |path| ==> Free(maze, msy, msx, path[k]))
                  && (goal == start || Near(path, goal));
      PathLinked(C, maze, msy, msx, path, start, goal);
    }
  }

  /** Cells moved by the quarter turn of a grid `w` wide. */
  function TurnAll(w: int, cells: seq<Cell>): (r: seq<Cell>)
    ensures |r| == |cells| && forall k :: 0 <= k < |cells| ==> r[k] == RotatePoint(w, cells[k])
  {
    seq(|cells|, k requires 0 <= k < |cells| => RotatePoint(w, cells[k]))
  }

  lemma NearTurn(w: int, cells: seq<Cell>, c: Cell)
    requires Near(cells, c)
    ensures Near(TurnAll(w, cells), RotatePoint(w, c))
  {
    var m :| 0 <= m < |cells| && Adjacent(cells[m], c);
    assert Adjacent(TurnAll(w, cells)[m], RotatePoint(w, c));
  }

  lemma ChainTurn(w: int, cells: seq<Cell>, start: Cell)
    requires Chain(cells, start)
    ensures Chain(TurnAll(w, cells), RotatePoint(w, start))
  {
    var path := TurnAll(w, cells);
    forall k | 0 < k < |path| ensures Near(path[..k], path[k]) {
      NearTurn(w, cells[..k], cells[k]);
      assert TurnAll(w, cells[..k]) == path[..k];
    }
  }

  /**
   * Turning a walk grid a quarter keeps a goal linked to its start: the
   * turn moves cells without changing which of them touch, which lie on
   * the border or what they cost.
   */
  lemma LinkedTurned(C: seq<seq<real>>, R: seq<seq<real>>, h: nat, w: nat, start: Cell, goal: Cell)
    requires IsGrid(C, h, w) && IsGrid(R, w, h)
    requires forall c {:trigger RotatePoint(w, c)} :: InGrid(c, h, w) ==>
               InGrid(RotatePoint(w, c), w, h) && R[RotatePoint(w, c).0][RotatePoint(w, c).1] == C[c.0][c.1]
    ensures Linked(C, h, w, start, goal) ==> Linked(R, w, h, RotatePoint(w, start), RotatePoint(w, goal))
  {
    if Linked(C, h, w, start, goal) {
      var path :| Chain(path, start) && AllFree(path, C, h, w) && (goal == start || Near(path, goal));
      var turned := TurnAll(w, path);
      ChainTurn(w, path, start);
      forall k | 0 <= k < |turned|
        ensures InGrid(turned[k], w, h) && !OnBorder(turned[k], w, h) && R[turned[k].0][turned[k].1] <= 1.0
      {
        var c := path[k];
        assert InGrid(c, h, w) && !OnBorder(c, h, w) && C[c.0][c.1] <= 1.0;
        assert turned[k] == RotatePoint(w, c);
      }
      assert AllFree(turned, R, w, h);
      if goal != start {
        NearTurn(w, path, goal);
      }
      assert Open(C, h, w, goal);
      assert InGrid(RotatePoint(w, goal), w, h);
      assert Open(R, w, h, RotatePoint(w, goal));
    }
  }

  // ------------------------------------------------------------ walks

  /** The walk on the padded, unturned grid `C`; a goal it reaches is connected to the start in the maze. */
  method WalkPlain(C: seq<seq<real>>, maze: seq<seq<bool>>, msy: nat, msx: nat,
                   start: Cell, goal: Cell, prior: nat, budget: Option<nat>)
    returns (outcome: WalkOutcome, numSteps: nat)
    requires WalkGrid(C, msy + 2, msx + 2) && Unblocked(C, maze, msy, msx)
    requires InGrid(start, msy, msx) && C[start.0 + 1][start.1 + 1] <= 1.0
    ensures outcome == Reached ==> 1 <= numSteps <= Cells(msy + 2, msx + 2) + 1
    ensures outcome == Reached ==> Connected(maze, msy, msx, start, goal)
    ensures outcome == Runaway ==>
      numSteps == Cells(msy + 2, msx + 2) + 1 && !Linked(C, msy + 2, msx + 2, PadCell(start), PadCell(goal))
    ensures outcome == OverBudget ==> budget.Some? && prior + numSteps > budget.value
    ensures budget.Some? && numSteps >= 2 ==> prior + numSteps - 1 <= budget.value
  {
    ghost var visited;
    outcome, numSteps, visited := Walk(C, msy + 2, msx + 2, PadCell(start), PadCell(goal), prior, budget);
    if outcome == Reached {
      WalkConnects(C, maze, msy, msx, start, goal, visited);
    }
  }

  /**
   * The walk on the turned grid `R`, `h` by `w`, from `start` to `goal`,
   * its step bound stated by the unturned grid's size. A goal reached on
   * the turned maze says nothing new about the maze; one that runs away
   * was cut off from its start.
   */
  method WalkTurned(R: seq<seq<real>>, h: nat, w: nat, start: Cell, goal: Cell, prior: nat, budget: Option<nat>)
    returns (outcome: WalkOutcome, numSteps: nat)
    requires WalkGrid(R, h, w) && InGrid(start, h, w) && R[start.0][start.1] <= 1.0
    ensures outcome == Reached ==> 1 <= numSteps <= Cells(w, h) + 1
    ensures outcome == Runaway ==> numSteps == Cells(w, h) + 1 && !Linked(R, h, w, start, goal)
    ensures outcome == OverBudget ==> budget.Some? && prior + numSteps > budget.value
    ensures budget.Some? && numSteps >= 2 ==> prior + numSteps - 1 <= budget.value
  {
    ghost var visited;
    outcome, numSteps, visited := Walk(R, h, w, start, goal, prior, budget);
    CellsComm(h, w);
  }

  lemma CellsComm(a: nat, b: nat)
    ensures Cells(a, b) == Cells(b, a)
  {
    SumIsProduct(a, b);
    SumIsProduct(b, a);
  }

  /** `costs_array_idx`: walk `i` uses the layer of pair `i / 2` when the maze is also turned, else of pair `i`. */
  function PairOf(rotate: bool, i: nat): nat {
    if rotate then i / 2 else i
  }

  /** How many pairs have had their unturned walk after the first `i` walks. */
  function Unturned(rotate: bool, i: nat): nat {
    if rotate then (i + 1) / 2 else i
  }

  /** Walk `i` belongs to pair `i / 2` (turned maze: odd `i`) or to pair `i`. */
  lemma WalkIndex(i: nat, rotate: bool, n: nat)
    requires i < if rotate then 2 * n else n
    ensures var idx := PairOf(rotate, i);
            var rotated := rotate && i % 2 == 1;
            idx < n
            && (!rotated ==> idx == Unturned(rotate, i) && Unturned(rotate, i + 1) == idx + 1)
            && (rotated ==> Unturned(rotate, i + 1) == Unturned(rotate, i))
  {
  }

  /** A walk whose every step but the last stayed within `budget` adds at most one step past it. */
  lemma BudgetStep(i: nat, total: nat, steps: nat, budget: nat)
    requires total <= budget + i && 1 <= steps
    requires steps >= 2 ==> total + steps - 1 <= budget
    ensures total + steps <= budget + (i + 1)
  {
  }

  lemma StepBound(i: nat, total: nat, steps: nat, m: nat)
    requires total <= Sum(i, m) && steps <= m
    ensures total + steps <= Sum(i + 1, m)
  {
  }

  /**
   * The costs of one pair: the cost field under the pair's bindings, its
   * normalised layer and the fingerprint window between the bounds
   * `r1..r2` by `c1..c2`; `grid == false` when the field is a scalar.
   */
  method CostsAt(heuristic: Program, stateX: seq<seq<real>>, stateY: seq<seq<real>>, start: Cell, goal: Cell,
                 msy: nat, msx: nat, r1: int, r2: int, c1: int, c2: int, normalizedParts: bool)
    returns (grid: bool, normalized: seq<seq<real>>, part: seq<seq<real>>)
    requires InVocabulary(heuristic) && msy >= 6 && msx >= 6 && InGrid(start, msy, msx)
    requires stateX == StateXGrid(msy, msx) && stateY == StateYGrid(msy, msx)
    requires (r1, r2) == WindowBounds(start.0, msy) && (c1, c2) == WindowBounds(start.1, msx)
    ensures grid <==> ReadsState(heuristic)
    ensures grid ==> normalized == Layer(heuristic, goal, msy, msx)
    ensures grid ==> part == CostPart(heuristic, start, goal, msy, msx, normalizedParts)
  {
    var env := PairEnv(stateX, stateY, goal);
    var costsArray := Interpret(heuristic, env, msy, msx);
    GridIffState(heuristic, goal, msy, msx);
    if costsArray.Scalar? {
      return false, [], [];
    }
    normalized := Normalize(costsArray.cells, msy, msx);
    WindowInside(start.0, msy);
    WindowInside(start.1, msx);
    part := if normalizedParts then Window(normalized, msy, msx, r1, r2, c1, c2)
            else Window(costsArray.cells, msy, msx, r1, r2, c1, c2);
    grid := true;
  }

  // ---------------------------------------------------- the oracle's state

  /** The maze and the pairs as the loaders and the start sampler leave them. */
  ghost predicate PairsIn(maze: seq<seq<bool>>, msy: nat, msx: nat, starts: seq<Cell>, ends: seq<Cell>) {
    msy >= 6 && msx >= 6 && IsGrid(maze, msy, msx)
    && |starts| >= 2 && |ends| == |starts|
    && (forall k :: 0 <= k < |starts| ==> InGrid(starts[k], msy, msx) && !maze[starts[k].0][starts[k].1])
    && (forall k :: 0 <= k < |ends| ==> InGrid(ends[k], msy, msx) && !maze[ends[k].0][ends[k].1])
  }

  /** The window bound `part_idx_dict` holds for a key. */
  function PartValue(starts: seq<Cell>, msy: nat, msx: nat, k: nat, axis: Axis, edge: Edge): int
    requires k < |starts|
  {
    var b := if axis == Row then WindowBounds(starts[k].0, msy) else WindowBounds(starts[k].1, msx);
    if edge == Start then b.0 else b.1
  }

  /** `part_idx_dict` after `additional_gets`: the four window bounds of every pair. */
  ghost predicate WindowDict(dict: map<PartKey, int>, starts: seq<Cell>, msy: nat, msx: nat) {
    forall k: nat, a: Axis, e: Edge :: k < |starts| ==>
      PartKey(k, a, e) in dict && dict[PartKey(k, a, e)] == PartValue(starts, msy, msx, k, a, e)
  }

  /** `rotated_starts` and `rotated_ends`: every pair moved by the quarter turn. */
  ghost predicate TurnedPairs(rotatedStarts: seq<Cell>, rotatedEnds: seq<Cell>, starts: seq<Cell>, ends: seq<Cell>, msx: nat) {
    |ends| == |starts| && |rotatedStarts| == |starts| && |rotatedEnds| == |ends|
    && forall k :: 0 <= k < |starts| ==>
         rotatedStarts[k] == RotatePoint(msx, starts[k]) && rotatedEnds[k] == RotatePoint(msx, ends[k])
  }

  /** A layer a walk can run on: `msy` by `msx`, every cell at most 1. */
  ghost predicate UnitLayer(layer: seq<seq<real>>, msy: nat, msx: nat) {
    IsGrid(layer, msy, msx) && forall i, j :: 0 <= i < msy && 0 <= j < msx ==> layer[i][j] <= 1.0
  }

  /** The layer of every pair, as the walks need them. */
  ghost predicate WalkLayers(layers: seq<seq<seq<real>>>, n: nat, msy: nat, msx: nat) {
    |layers| == n && forall k :: 0 <= k < n ==> UnitLayer(layers[k], msy, msx)
  }

  /** Number of walks: one per pair, two when the maze is also turned. */
  function PairCount(rotate: bool, n: nat): nat {
    if rotate then 2 * n else n
  }

  /** The most steps one completed walk can take on the padded grid. */
  function MaxWalk(msy: nat, msx: nat): nat {
    Cells(msy + 2, msx + 2) + 1
  }

  // ----------------------------------------------------- run_a_star's loops

  /** The four bounds of pair `k`'s window, looked up in `part_idx_dict`. */
  method WindowOf(dict: map<PartKey, int>, starts: seq<Cell>, msy: nat, msx: nat, k: nat)
    returns (r1: int, r2: int, c1: int, c2: int)
    requires WindowDict(dict, starts, msy, msx) && k < |starts|
    ensures (r1, r2) == WindowBounds(starts[k].0, msy) && (c1, c2) == WindowBounds(starts[k].1, msx)
  {
    r1, r2 := dict[PartKey(k, Row, Start)], dict[PartKey(k, Row, End)];
    c1, c2 := dict[PartKey(k, Col, Start)], dict[PartKey(k, Col, End)];
  }

  /** One turn of the first loop: pair `k`'s layer and window appended to those of the pairs before it. */
  method NextPair(heuristic: Program, stateX: seq<seq<real>>, stateY: seq<seq<real>>, dict: map<PartKey, int>,
                  starts: seq<Cell>, ends: seq<Cell>, msy: nat, msx: nat, normalizedParts: bool,
                  k: nat, layers: seq<seq<seq<real>>>, parts: seq<seq<seq<real>>>)
    returns (grid: bool, layers': seq<seq<seq<real>>>, parts': seq<seq<seq<real>>>)
    requires InVocabulary(heuristic) && msy >= 6 && msx >= 6 && k < |starts| && |ends| == |starts|
    requires forall k :: 0 <= k < |starts| ==> InGrid(starts[k], msy, msx)
    requires stateX == StateXGrid(msy, msx) && stateY == StateYGrid(msy, msx)
    requires WindowDict(dict, starts, msy, msx)
    requires |layers| == k && |parts| == k
    requires k > 0 ==> ReadsState(heuristic)
    requires k > 0 ==> layers == Layers(heuristic, ends, k, msy, msx)
    requires k > 0 ==> parts == Parts(heuristic, starts, ends, k, msy, msx, normalizedParts)
    ensures grid <==> ReadsState(heuristic)
    ensures grid ==> layers' == Layers(heuristic, ends, k + 1, msy, msx)
    ensures grid ==> parts' == Parts(heuristic, starts, ends, k + 1, msy, msx, normalizedParts)
  {
    var r1, r2, c1, c2 := WindowOf(dict, starts, msy, msx, k);
    var normalized, part;
    grid, normalized, part := CostsAt(heuristic, stateX, stateY, starts[k], ends[k], msy, msx, r1, r2, c1, c2, normalizedParts);
    layers', parts' := layers + [normalized], parts + [part];
    if grid {
      assert layers == Layers(heuristic, ends, k, msy, msx);
      assert parts == Parts(heuristic, starts, ends, k, msy, msx, normalizedParts);
    }
  }

  /**
   * The first loop of `run_a_star`: the normalised field and the
   * fingerprint window of every pair, or `ok == false` as soon as one
   * cost field comes out a scalar.
   */
  method BuildLayers(heuristic: Program, stateX: seq<seq<real>>, stateY: seq<seq<real>>, dict: map<PartKey, int>,
                     starts: seq<Cell>, ends: seq<Cell>, msy: nat, msx: nat, normalizedParts: bool)
    returns (ok: bool, layers: seq<seq<seq<real>>>, parts: seq<seq<seq<real>>>)
    requires InVocabulary(heuristic) && msy >= 6 && msx >= 6 && |starts| >= 2 && |ends| == |starts|
    requires forall k :: 0 <= k < |starts| ==> InGrid(starts[k], msy, msx)
    requires stateX == StateXGrid(msy, msx) && stateY == StateYGrid(msy, msx)
    requires WindowDict(dict, starts, msy, msx)
    ensures ok <==> ReadsState(heuristic)
    ensures ok ==> layers == Layers(heuristic, ends, |ends|, msy, msx)
    ensures ok ==> parts == Parts(heuristic, starts, ends, |starts|, msy, msx, normalizedParts)
  {
    layers := [];
    parts := [];
    for k := 0 to |starts|
      invariant |layers| == k && |parts| == k
      invariant k > 0 ==> ReadsState(heuristic)
      invariant k > 0 ==> layers == Layers(heuristic, ends, k, msy, msx)
      invariant k > 0 ==> parts == Parts(heuristic, starts, ends, k, msy, msx, normalizedParts)
    {
      var grid;
      grid, layers, parts := NextPair(heuristic, stateX, stateY, dict, starts, ends, msy, msx, normalizedParts, k, layers, parts);
      if !grid {
        return false, [], [];
      }
    }
    ok := true;
  }

  /**
   * The checks at the top of `run_a_star` that do not depend on earlier
   * calls: every pair's cost field must be a grid and no normalised cell
   * may exceed 1. When both pass, the layers to walk and the fingerprint.
   */
  method Screen(heuristic: Program, stateX: seq<seq<real>>, stateY: seq<seq<real>>, dict: map<PartKey, int>,
                starts: seq<Cell>, ends: seq<Cell>, msy: nat, msx: nat, normalizedParts: bool)
    returns (ok: bool, layers: seq<seq<seq<real>>>, fingerprint: seq<real>)
    requires InVocabulary(heuristic) && msy >= 6 && msx >= 6 && |starts| >= 2 && |ends| == |starts|
    requires forall k :: 0 <= k < |starts| ==> InGrid(starts[k], msy, msx)
    requires stateX == StateXGrid(msy, msx) && stateY == StateYGrid(msy, msx)
    requires WindowDict(dict, starts, msy, msx)
    ensures ok <==> ReadsState(heuristic)
    ensures ok ==> WalkLayers(layers, |starts|, msy, msx)
    ensures ok ==> fingerprint == Fingerprint(heuristic, starts, ends, |starts|, msy, msx, normalizedParts)
  {
    var parts;
    ok, layers, parts := BuildLayers(heuristic, stateX, stateY, dict, starts, ends, msy, msx, normalizedParts);
    if !ok {
      return false, [], [];
    }
    NeverExceeded(heuristic, ends, msy, msx);
    if SeqMax(Stack(layers)) > 1.0 {
      // normalised costs lie in [0, 1], so "max cost exceeded" cannot happen
      assert false;
    }
    fingerprint := Stack(parts);
    FingerprintStack(heuristic, starts, ends, |starts|, msy, msx, normalizedParts);
  }

  /**
   * The walk on one pair's padded layer: a goal it reaches is connected to
   * the start in the maze, and one it runs away from is not.
   */
  method LayerWalkPlain(layer: seq<seq<real>>, maze: seq<seq<bool>>, msy: nat, msx: nat,
                        start: Cell, goal: Cell, prior: nat, budget: Option<nat>)
    returns (outcome: WalkOutcome, numSteps: nat)
    requires UnitLayer(layer, msy, msx) && IsGrid(maze, msy, msx)
    requires InGrid(start, msy, msx) && !maze[start.0][start.1]
    requires InGrid(goal, msy, msx) && !maze[goal.0][goal.1]
    ensures outcome == Reached ==> 1 <= numSteps <= MaxWalk(msy, msx)
    ensures outcome == Reached ==> Connected(maze, msy, msx, start, goal)
    ensures outcome == Runaway ==> numSteps == MaxWalk(msy, msx) && !Connected(maze, msy, msx, start, goal)
    ensures outcome == OverBudget ==> budget.Some? && prior + numSteps > budget.value
    ensures budget.Some? && numSteps >= 2 ==> prior + numSteps - 1 <= budget.value
  {
    var C := PadLayer(layer, maze, msy, msx);
    assert C[start.0 + 1][start.1 + 1] == layer[start.0][start.1];
    outcome, numSteps := WalkPlain(C, maze, msy, msx, start, goal, prior, budget);
    ConnectedLinked(C, maze, msy, msx, start, goal);
  }

  /**
   * The walk on one pair's padded layer turned a quarter, between the
   * turned start `rs` and the turned goal `rg`; a goal it runs away from
   * is not connected to the start in the maze.
   */
  method LayerWalkTurned(layer: seq<seq<real>>, maze: seq<seq<bool>>, msy: nat, msx: nat,
                         start: Cell, goal: Cell, rs: Cell, rg: Cell, prior: nat, budget: Option<nat>)
    returns (outcome: WalkOutcome, numSteps: nat)
    requires UnitLayer(layer, msy, msx) && IsGrid(maze, msy, msx)
    requires InGrid(start, msy, msx) && !maze[start.0][start.1] && rs == RotatePoint(msx, start)
    requires InGrid(goal, msy, msx) && !maze[goal.0][goal.1] && rg == RotatePoint(msx, goal)
    ensures outcome == Reached ==> 1 <= numSteps <= MaxWalk(msy, msx)
    ensures outcome == Runaway ==> numSteps == MaxWalk(msy, msx) && !Connected(maze, msy, msx, start, goal)
    ensures outcome == OverBudget ==> budget.Some? && prior + numSteps > budget.value
    ensures budget.Some? && numSteps >= 2 ==> prior + numSteps - 1 <= budget.value
  {
    var C := PadLayer(layer, maze, msy, msx);
    assert C[start.0 + 1][start.1 + 1] == layer[start.0][start.1];
    outcome, numSteps := WalkTurnedOf(C, msy, msx, start, goal, rs, rg, prior, budget);
    ConnectedLinked(C, maze, msy, msx, start, goal);
  }

  /**
   * The walk on the padded grid `C` turned a quarter, from the turned
   * start `rs` to the turned goal `rg`; when it runs away, `goal` was cut
   * off from `start` on `C` itself.
   */
  method WalkTurnedOf(C: seq<seq<real>>, msy: nat, msx: nat, start: Cell, goal: Cell, rs: Cell, rg: Cell,
                      prior: nat, budget: Option<nat>)
    returns (outcome: WalkOutcome, numSteps: nat)
    requires WalkGrid(C, msy + 2, msx + 2)
    requires InGrid(start, msy, msx) && C[start.0 + 1][start.1 + 1] <= 1.0 && rs == RotatePoint(msx, start)
    requires rg == RotatePoint(msx, goal)
    ensures outcome == Reached ==> 1 <= numSteps <= MaxWalk(msy, msx)
    ensures outcome == Runaway ==>
      numSteps == MaxWalk(msy, msx) && !Linked(C, msy + 2, msx + 2, PadCell(start), PadCell(goal))
    ensures outcome == OverBudget ==> budget.Some? && prior + numSteps > budget.value
    ensures budget.Some? && numSteps >= 2 ==> prior + numSteps - 1 <= budget.value
  {
    var R := TurnLayer(C, msy + 2, msx + 2);
    var p, s := PadCell(start), PadCell(rs);
    assert InGrid(p, msy + 2, msx + 2);
    PaddedRotatePoint(msx, start);
    PaddedRotatePoint(msx, goal);
    assert RotatePoint(msx + 2, p) == s;
    assert R[s.0][s.1] == C[p.0][p.1];
    outcome, numSteps := WalkTurned(R, msx + 2, msy + 2, s, PadCell(rg), prior, budget);
    LinkedTurned(C, R, msy + 2, msx + 2, p, PadCell(goal));
  }

  /**
   * Walk `i` of the loop at a_star.py:181-249: the layer of pair
   * `PairOf(rotate, i)` padded with walls, turned for the odd walks when
   * `rotate`, and walked from the pair's start to its goal. A completed
   * unturned walk connects its pair in the maze.
   */
  method WalkPair(layers: seq<seq<seq<real>>>, maze: seq<seq<bool>>, msy: nat, msx: nat,
                  starts: seq<Cell>, ends: seq<Cell>, rotate: bool, rotatedStarts: seq<Cell>, rotatedEnds: seq<Cell>,
                  i: nat, prior: nat, budget: Option<nat>)
    returns (outcome: WalkOutcome, numSteps: nat)
    requires PairsIn(maze, msy, msx, starts, ends) && WalkLayers(layers, |starts|, msy, msx)
    requires rotate ==> TurnedPairs(rotatedStarts, rotatedEnds, starts, ends, msx)
    requires i < PairCount(rotate, |starts|)
    requires ConnectedUpTo(maze, msy, msx, starts, ends, Unturned(rotate, i))
    ensures PairOf(rotate, i) < |starts| && Unturned(rotate, i + 1) <= |starts|
    ensures outcome == Reached ==> 1 <= numSteps <= MaxWalk(msy, msx)
    ensures outcome == Reached ==> ConnectedUpTo(maze, msy, msx, starts, ends, Unturned(rotate, i + 1))
    ensures outcome == Runaway ==>
      numSteps == MaxWalk(msy, msx) && !Connected(maze, msy, msx, starts[PairOf(rotate, i)], ends[PairOf(rotate, i)])
    ensures outcome == OverBudget ==> budget.Some? && prior + numSteps > budget.value
    ensures budget.Some? && numSteps >= 2 ==> prior + numSteps - 1 <= budget.value
  {
    var idx := PairOf(rotate, i);
    WalkIndex(i, rotate, |starts|);
    if rotate && i % 2 == 1 {
      outcome, numSteps := LayerWalkTurned(layers[idx], maze, msy, msx, starts[idx], ends[idx],
                                           rotatedStarts[idx], rotatedEnds[idx], prior, budget);
    } else {
      outcome, numSteps := LayerWalkPlain(layers[idx], maze, msy, msx, starts[idx], ends[idx], prior, budget);
      if outcome == Reached {
        ConnectedNext(maze, msy, msx, starts, ends, idx);
      }
    }
  }

  /**
   * One round of the second loop of `run_a_star`: walk `i` (of pair `idx`)
   * after `total` steps so far. When it reaches its goal the walks so far
   * keep the loop's bounds, and every pair whose unturned walk is done is
   * connected; otherwise it stops the loop, as `WalkAll` describes.
   */
  method WalkNext(layers: seq<seq<seq<real>>>, maze: seq<seq<bool>>, msy: nat, msx: nat,
                  starts: seq<Cell>, ends: seq<Cell>, rotate: bool, rotatedStarts: seq<Cell>, rotatedEnds: seq<Cell>,
                  budget: Option<nat>, i: nat, total: nat)
    returns (outcome: WalkOutcome, total': nat, idx: nat)
    requires PairsIn(maze, msy, msx, starts, ends) && WalkLayers(layers, |starts|, msy, msx)
    requires rotate ==> TurnedPairs(rotatedStarts, rotatedEnds, starts, ends, msx)
    requires i < PairCount(rotate, |starts|) && i <= total <= Sum(i, MaxWalk(msy, msx))
    requires ConnectedUpTo(maze, msy, msx, starts, ends, Unturned(rotate, i))
    requires budget.Some? ==> total <= budget.value + i
    ensures outcome == Reached ==> i + 1 <= total' <= Sum(i + 1, MaxWalk(msy, msx))
    ensures outcome == Reached ==> Unturned(rotate, i + 1) <= |starts|
    ensures outcome == Reached ==> ConnectedUpTo(maze, msy, msx, starts, ends, Unturned(rotate, i + 1))
    ensures outcome == Reached && budget.Some? ==> total' <= budget.value + (i + 1)
    ensures outcome != Reached ==> idx < |starts| && ConnectedUpTo(maze, msy, msx, starts, ends, idx)
    ensures outcome == Runaway ==> !Connected(maze, msy, msx, starts[idx], ends[idx])
    ensures outcome == OverBudget ==> budget.Some? && total' > budget.value
  {
    idx := PairOf(rotate, i);
    var numSteps;
    outcome, numSteps := WalkPair(layers, maze, msy, msx, starts, ends, rotate, rotatedStarts, rotatedEnds, i, total, budget);
    total' := total + numSteps;
    if outcome == Reached {
      StepBound(i, total, numSteps, MaxWalk(msy, msx));
      if budget.Some? {
        BudgetStep(i, total, numSteps, budget.value);
      }
    } else {
      ConnectedPrefix(maze, msy, msx, starts, ends, Unturned(rotate, i), idx);
    }
  }

  /**
   * The second loop of `run_a_star`: one walk per pair, and one more on
   * the turned maze when `rotate`. `Reached` means every walk reached its
   * goal, with `total` steps in all, so every goal is connected to its
   * start. Otherwise the walks stopped at pair `idx`, every earlier pair
   * being connected: `Runaway` when a walk of that pair ran away, so its
   * goal is cut off from its start; `OverBudget` when the steps so far,
   * `total` (`total_num_steps + num_steps`), went past `budget`. Every
   * step but the last of each walk stays within the budget, so walks that
   * all reach their goals total at most the budget plus one per walk.
   */
  method WalkAll(layers: seq<seq<seq<real>>>, maze: seq<seq<bool>>, msy: nat, msx: nat,
                 starts: seq<Cell>, ends: seq<Cell>, rotate: bool, rotatedStarts: seq<Cell>, rotatedEnds: seq<Cell>,
                 budget: Option<nat>)
    returns (outcome: WalkOutcome, total: nat, idx: nat)
    requires PairsIn(maze, msy, msx, starts, ends) && WalkLayers(layers, |starts|, msy, msx)
    requires rotate ==> TurnedPairs(rotatedStarts, rotatedEnds, starts, ends, msx)
    ensures outcome == Reached ==> PairCount(rotate, |starts|) <= total <= Sum(PairCount(rotate, |starts|), MaxWalk(msy, msx))
    ensures outcome == Reached ==> ConnectedUpTo(maze, msy, msx, starts, ends, |starts|)
    ensures outcome != Reached ==> idx < |starts| && ConnectedUpTo(maze, msy, msx, starts, ends, idx)
    ensures outcome == Runaway ==> !Connected(maze, msy, msx, starts[idx], ends[idx])
    ensures outcome == OverBudget ==> budget.Some? && total > budget.value
    ensures outcome == Reached && budget.Some? ==> total <= budget.value + PairCount(rotate, |starts|)
  {
    total, idx := 0, 0;
    for i := 0 to PairCount(rotate, |starts|)
      invariant i <= total <= Sum(i, MaxWalk(msy, msx))
      invariant Unturned(rotate, i) <= |starts|
      invariant ConnectedUpTo(maze, msy, msx, starts, ends, Unturned(rotate, i))
      invariant budget.Some? ==> total <= budget.value + i
    {
      outcome, total, idx := WalkNext(layers, maze, msy, msx, starts, ends, rotate, rotatedStarts, rotatedEnds,
                                      budget, i, total);
      if outcome != Reached {
        return;
      }
    }
    assert Unturned(rotate, PairCount(rotate, |starts|)) == |starts|;
    outcome := Reached;
  }

  // ------------------------------------------------------------ the oracle

  /** `run_a_star` answers `False` (the heuristic is rejected) exactly in these cases. */
  ghost predicate Rejected(h: Program, starts: seq<Cell>, ends: seq<Cell>, msy: nat, msx: nat,
                           normalized: bool, updateBest: bool, seen: set<seq<real>>)
    requires InVocabulary(h) && msy >= 6 && msx >= 6 && |starts| == |ends|
    requires forall k :: 0 <= k < |starts| ==> InGrid(starts[k], msy, msx)
  {
    !ReadsState(h) || (updateBest && Fingerprint(h, starts, ends, |starts|, msy, msx, normalized) in seen)
  }

  /**
   * The first half of `run_a_star`: screen the heuristic and, when
   * updating, check its fingerprint against the set `seen` of those already
   * met (`costs_array_set`) and add it. `admitted` when the walks are to
   * be run, with the layers for them.
   */
  method Admit(heuristic: Program, compareNormalizedCosts: bool, updateBest: bool, msy: nat, msx: nat,
               starts: seq<Cell>, ends: seq<Cell>, stateX: seq<seq<real>>, stateY: seq<seq<real>>,
               dict: map<PartKey, int>, seen: set<seq<real>>)
    returns (admitted: bool, layers: seq<seq<seq<real>>>, seen': set<seq<real>>)
    requires InVocabulary(heuristic) && msy >= 6 && msx >= 6 && |starts| >= 2 && |ends| == |starts|
    requires forall k :: 0 <= k < |starts| ==> InGrid(starts[k], msy, msx)
    requires stateX == StateXGrid(msy, msx) && stateY == StateYGrid(msy, msx)
    requires WindowDict(dict, starts, msy, msx)
    ensures admitted <==> !Rejected(heuristic, starts, ends, msy, msx, compareNormalizedCosts, updateBest, seen)
    ensures admitted ==> WalkLayers(layers, |starts|, msy, msx)
    ensures seen' ==
      if updateBest && ReadsState(heuristic)
      then seen + {Fingerprint(heuristic, starts, ends, |starts|, msy, msx, compareNormalizedCosts)}
      else seen
  {
    var ok, fingerprint;
    ok, layers, fingerprint := Screen(heuristic, stateX, stateY, dict, starts, ends, msy, msx, compareNormalizedCosts);
    seen' := seen;
    if !ok {
      return false, layers, seen';
    }
    admitted := true;
    if updateBest {
      admitted := fingerprint !in seen;
      seen' := seen + {fingerprint};
    }
  }

  /**
   * The second half of `run_a_star`: walk every pair against the best
   * total so far (`best`, present when `bestNotInf`) and record a better
   * average when updating. `spent` is the step total when the walks
   * stopped: it went past the best total when they stopped over budget,
   * and a completed total is at most the best total plus one step per
   * walk. No answer (`None`) follows a runaway walk, whose goal is cut off.
   */
  method WalkAndRecord(layers: seq<seq<seq<real>>>, maze: seq<seq<bool>>, msy: nat, msx: nat,
                       starts: seq<Cell>, ends: seq<Cell>, rotate: bool, rotatedStarts: seq<Cell>, rotatedEnds: seq<Cell>,
                       updateBest: bool, best: AvgSteps, bestNotInf: bool)
    returns (avgSteps: AvgSteps, accepted: Option<bool>, completed: Option<nat>, best': AvgSteps, bestNotInf': bool,
             ghost spent: nat)
    requires PairsIn(maze, msy, msx, starts, ends) && WalkLayers(layers, |starts|, msy, msx)
    requires rotate ==> TurnedPairs(rotatedStarts, rotatedEnds, starts, ends, msx)
    requires bestNotInf <==> best.Finite?
    ensures bestNotInf' <==> best'.Finite?
    ensures accepted != Some(true) ==> accepted == None && avgSteps == Inf && completed == None
    ensures accepted == None ==> !ConnectedUpTo(maze, msy, msx, starts, ends, |starts|)
    ensures avgSteps.Finite? ==>
      accepted == Some(true) && completed == Some(|starts|) && spent == avgSteps.total
      && PairCount(rotate, |starts|) <= avgSteps.total <= Sum(PairCount(rotate, |starts|), MaxWalk(msy, msx))
      && ConnectedUpTo(maze, msy, msx, starts, ends, |starts|)
    ensures accepted == Some(true) && avgSteps == Inf ==>
      best.Finite? && completed.Some? && completed.value < |starts| && spent > best.total
      && ConnectedUpTo(maze, msy, msx, starts, ends, completed.value)
    ensures avgSteps.Finite? && best.Finite? ==> avgSteps.total <= best.total + PairCount(rotate, |starts|)
    ensures best' == if updateBest && Below(avgSteps, best) then avgSteps else best
  {
    best', bestNotInf' := best, bestNotInf;
    var outcome, total, idx := WalkAll(layers, maze, msy, msx, starts, ends, rotate, rotatedStarts, rotatedEnds,
                                       if bestNotInf then Some(best.total) else None);
    spent := total;
    if outcome == Runaway {
      return Inf, None, None, best', bestNotInf', spent;
    }
    if outcome == OverBudget {
      return Inf, Some(true), Some(idx), best', bestNotInf', spent;
    }
    avgSteps := Finite(total);
    if Below(avgSteps, best) && updateBest {
      bestNotInf' := true;
      best' := avgSteps;
    }
    return avgSteps, Some(true), Some(|starts|), best', bestNotInf', spent;
  }

  /**
   * The body of `run_a_star` over the oracle's state passed in and handed
   * back: `seen` is `costs_array_set`, `best` and `bestNotInf` are
   * `best_avg_steps` and `best_avg_steps_not_inf`; `spent` is the step
   * total when the walks stopped.
   */
  method Evaluate(heuristic: Program, compareNormalizedCosts: bool, updateBest: bool,
                  maze: seq<seq<bool>>, msy: nat, msx: nat, starts: seq<Cell>, ends: seq<Cell>,
                  rotate: bool, rotatedStarts: seq<Cell>, rotatedEnds: seq<Cell>,
                  stateX: seq<seq<real>>, stateY: seq<seq<real>>, dict: map<PartKey, int>,
                  seen: set<seq<real>>, best: AvgSteps, bestNotInf: bool)
    returns (avgSteps: AvgSteps, accepted: Option<bool>, completed: Option<nat>,
             seen': set<seq<real>>, best': AvgSteps, bestNotInf': bool, ghost spent: nat)
    requires InVocabulary(heuristic) && PairsIn(maze, msy, msx, starts, ends)
    requires rotate ==> TurnedPairs(rotatedStarts, rotatedEnds, starts, ends, msx)
    requires stateX == StateXGrid(msy, msx) && stateY == StateYGrid(msy, msx)
    requires WindowDict(dict, starts, msy, msx)
    requires bestNotInf <==> best.Finite?
    ensures bestNotInf' <==> best'.Finite?
    ensures accepted == Some(false) <==> Rejected(heuristic, starts, ends, msy, msx, compareNormalizedCosts, updateBest, seen)
    ensures accepted != Some(true) ==> avgSteps == Inf && completed == None
    ensures avgSteps.Finite? ==>
      accepted == Some(true) && completed == Some(|starts|)
      && PairCount(rotate, |starts|) <= avgSteps.total <= Sum(PairCount(rotate, |starts|), MaxWalk(msy, msx))
    ensures avgSteps.Finite? ==> ConnectedUpTo(maze, msy, msx, starts, ends, |starts|) && spent == avgSteps.total
    ensures accepted == None ==> !ConnectedUpTo(maze, msy, msx, starts, ends, |starts|)
    ensures accepted == Some(true) && avgSteps == Inf ==>
      best.Finite? && completed.Some? && completed.value < |starts| && spent > best.total
      && ConnectedUpTo(maze, msy, msx, starts, ends, completed.value)
    ensures seen' ==
      if updateBest && ReadsState(heuristic)
      then seen + {Fingerprint(heuristic, starts, ends, |starts|, msy, msx, compareNormalizedCosts)}
      else seen
    ensures avgSteps.Finite? && best.Finite? ==> avgSteps.total <= best.total + PairCount(rotate, |starts|)
    ensures best' == if updateBest && Below(avgSteps, best) then avgSteps else best
  {
    var admitted, layers;
    admitted, layers, seen' := Admit(heuristic, compareNormalizedCosts, updateBest, msy, msx, starts, ends, stateX, stateY, dict, seen);
    if !admitted {
      return Inf, Some(false), None, seen', best, bestNotInf, 0;
    }
    avgSteps, accepted, completed, best', bestNotInf', spent :=
      WalkAndRecord(layers, maze, msy, msx, starts, ends, rotate, rotatedStarts, rotatedEnds, updateBest, best, bestNotInf);
  }

  class AStar {
    const numPairs: nat
    const rotateMaze: bool
    const msy: nat
    const msx: nat
    /** `true` marks a blocked cell (`maze == 1`). */
    const maze: seq<seq<bool>>
    const starts: seq<Cell>
    const ends: seq<Cell>

    var bestAvgSteps: AvgSteps
    var bestAvgStepsNotInf: bool
    var costsArraySet: set<seq<real>>

    var stateX: seq<seq<real>>
    var stateY: seq<seq<real>>
    var rotatedStarts: seq<Cell>
    var rotatedEnds: seq<Cell>
    var partIdxDict: map<PartKey, int>

    /** The maze and `num_pairs` pairs as the loaders and the start sampler leave them. */
    ghost predicate Loaded() {
      |starts| == numPairs && PairsIn(maze, msy, msx, starts, ends)
    }

    /** The coordinate grids of `additional_gets`. */
    ghost predicate StatesReady()
      reads this`stateX, this`stateY
    {
      stateX == StateXGrid(msy, msx) && stateY == StateYGrid(msy, msx)
    }

    /** The turned pairs of `additional_gets`, present when the maze is also walked turned. */
    ghost predicate TurnsReady()
      reads this`rotatedStarts, this`rotatedEnds
    {
      rotateMaze ==> TurnedPairs(rotatedStarts, rotatedEnds, starts, ends, msx)
    }

    /** The window bounds of `additional_gets`. */
    ghost predicate WindowsReady()
      reads this`partIdxDict
    {
      WindowDict(partIdxDict, starts, msy, msx)
    }

    /** The state after `additional_gets`. */
    ghost predicate Prepared()
      reads this`stateX, this`stateY, this`rotatedStarts, this`rotatedEnds, this`partIdxDict
    {
      Loaded() && StatesReady() && TurnsReady() && WindowsReady()
    }

    /** `best_avg_steps_not_inf` says whether a best average has been recorded. */
    ghost predicate BestKnown()
      reads this`bestAvgSteps, this`bestAvgStepsNotInf
    {
      bestAvgStepsNotInf <==> bestAvgSteps.Finite?
    }

    /** The oracle on a loaded maze: no best score, no fingerprints. */
    constructor (numPairs: nat, rotateMaze: bool, maze: seq<seq<bool>>, msy: nat, msx: nat,
                 starts: seq<Cell>, ends: seq<Cell>)
      requires |starts| == numPairs && PairsIn(maze, msy, msx, starts, ends)
      ensures Loaded() && BestKnown()
      ensures this.numPairs == numPairs && this.rotateMaze == rotateMaze && this.maze == maze
      ensures this.msy == msy && this.msx == msx && this.starts == starts && this.ends == ends
      ensures bestAvgSteps == Inf && !bestAvgStepsNotInf && costsArraySet == {}
    {
      this.numPairs := numPairs;
      this.rotateMaze := rotateMaze;
      this.maze := maze;
      this.msy := msy;
      this.msx := msx;
      this.starts := starts;
      this.ends := ends;
      bestAvgSteps := Inf;
      bestAvgStepsNotInf := false;
      costsArraySet := {};
    }

    /** The coordinate grids, the turned pairs and the window bounds, computed once. */
    method AdditionalGets()
      requires Loaded()
      modifies this`stateX, this`stateY, this`rotatedStarts, this`rotatedEnds, this`partIdxDict
      ensures Prepared()
      ensures !rotateMaze ==> rotatedStarts == old(rotatedStarts) && rotatedEnds == old(rotatedEnds)
    {
      stateX := StateXGrid(msy, msx);
      stateY := StateYGrid(msy, msx);
      if rotateMaze {
        var rs: seq<Cell> := [];
        var re: seq<Cell> := [];
        for k := 0 to |starts|
          invariant |rs| == k && |re| == k
          invariant forall k' :: 0 <= k' < k ==> rs[k'] == RotatePoint(msx, starts[k']) && re[k'] == RotatePoint(msx, ends[k'])
        {
          rs := rs + [RotatePoint(msx, starts[k])];
          re := re + [RotatePoint(msx, ends[k])];
        }
        rotatedStarts, rotatedEnds := rs, re;
      }
      var dict: map<PartKey, int> := map[];
      for k := 0 to |starts|
        invariant forall k': nat, a: Axis, e: Edge :: k' < k ==>
          PartKey(k', a, e) in dict && dict[PartKey(k', a, e)] == PartValue(starts, msy, msx, k', a, e)
      {
        var rb := WindowBounds(starts[k].0, msy);
        var cb := WindowBounds(starts[k].1, msx);
        dict := dict[PartKey(k, Row, Start) := rb.0][PartKey(k, Row, End) := rb.1]
                    [PartKey(k, Col, Start) := cb.0][PartKey(k, Col, End) := cb.1];
        forall a: Axis, e: Edge ensures PartKey(k, a, e) in dict && dict[PartKey(k, a, e)] == PartValue(starts, msy, msx, k, a, e) {
          assert PartValue(starts, msy, msx, k, a, e) == if a == Row then (if e == Start then rb.0 else rb.1)
                                                         else (if e == Start then cb.0 else cb.1);
        }
      }
      partIdxDict := dict;
    }

    /**
     * `run_a_star`: reject a heuristic whose cost field is a scalar, exceeds
     * 1 after normalising, or (when updating) repeats a fingerprint already
     * seen; otherwise walk every pair, giving up on a walk that runs away
     * or pushes the total past the best total so far. Answers the average
     * (as a total), whether the heuristic was accepted, and how many pairs
     * were done or the index of the pair that went over budget. No answer
     * (`None`) means a walk ran away, which happens only to a goal cut off
     * from its start; `spent` is the step total when the walks stopped.
     */
    method RunAStar(heuristic: Program, compareNormalizedCosts: bool, updateBest: bool)
      returns (avgSteps: AvgSteps, accepted: Option<bool>, completed: Option<nat>, ghost spent: nat)
      requires Prepared() && BestKnown() && InVocabulary(heuristic)
      modifies this`bestAvgSteps, this`bestAvgStepsNotInf, this`costsArraySet
      ensures Prepared() && BestKnown()
      ensures accepted == Some(false) <==>
        Rejected(heuristic, starts, ends, msy, msx, compareNormalizedCosts, updateBest, old(costsArraySet))
      ensures accepted != Some(true) ==> avgSteps == Inf && completed == None
      ensures avgSteps.Finite? ==>
        accepted == Some(true) && completed == Some(numPairs)
        && PairCount(rotateMaze, numPairs) <= avgSteps.total <= Sum(PairCount(rotateMaze, numPairs), MaxWalk(msy, msx))
      ensures avgSteps.Finite? ==> ConnectedUpTo(maze, msy, msx, starts, ends, numPairs) && spent == avgSteps.total
      ensures accepted == None ==> !ConnectedUpTo(maze, msy, msx, starts, ends, numPairs)
      ensures accepted == Some(true) && avgSteps == Inf ==>
        old(bestAvgSteps).Finite? && completed.Some? && completed.value < numPairs && spent > old(bestAvgSteps).total
        && ConnectedUpTo(maze, msy, msx, starts, ends, completed.value)
      ensures costsArraySet ==
        if updateBest && ReadsState(heuristic)
        then old(costsArraySet) + {Fingerprint(heuristic, starts, ends, numPairs, msy, msx, compareNormalizedCosts)}
        else old(costsArraySet)
      ensures avgSteps.Finite? && old(bestAvgSteps).Finite? ==>
        avgSteps.total <= old(bestAvgSteps).total + PairCount(rotateMaze, numPairs)
      ensures bestAvgSteps == if updateBest && Below(avgSteps, old(bestAvgSteps)) then avgSteps else old(bestAvgSteps)
    {
      var seen, best, bestNotInf;
      avgSteps, accepted, completed, seen, best, bestNotInf, spent :=
        Evaluate(heuristic, compareNormalizedCosts, updateBest, maze, msy, msx, starts, ends,
                 rotateMaze, rotatedStarts, rotatedEnds, stateX, stateY, partIdxDict,
                 costsArraySet, bestAvgSteps, bestAvgStepsNotInf);
      costsArraySet, bestAvgSteps, bestAvgStepsNotInf := seen, best, bestNotInf;
    }
  }
}
