/**
 * Rectangular grids as sequences of rows, and the handful of numpy array
 * operations the oracle uses on them: flattening in row-major order, the
 * minimum and maximum of all cells, constant padding by one cell and the
 * counter-clockwise quarter turn `np.rot90(a, k=1)`.
 */
module Grids {

  /** A cell position `(row, column)`. */
  type Cell = (int, int)

  /** `g` has `h` rows of `w` cells each. */
  predicate IsGrid<T>(g: seq<seq<T>>, h: nat, w: nat) {
    |g| == h && forall i :: 0 <= i < h ==> |g[i]| == w
  }

  /** `c` lies inside an `h` by `w` grid. */
  predicate InGrid(c: Cell, h: int, w: int) {
    0 <= c.0 < h && 0 <= c.1 < w
  }

  /** The rows laid end to end, first row first (numpy's `flatten`). */
  function Flatten<T>(g: seq<seq<T>>): (s: seq<T>)
    ensures g != [] && g[0] != [] ==> s != []
  {
    if g == [] then [] else g[0] + Flatten(g[1..])
  }

  lemma {:induction false} FlattenHas<T>(g: seq<seq<T>>, i: int, j: int)
    requires 0 <= i < |g| && 0 <= j < |g[i]|
    ensures g[i][j] in Flatten(g)
  {
    if i > 0 {
      FlattenHas(g[1..], i - 1, j);
    }
  }

  lemma {:induction false} FlattenFrom<T>(g: seq<seq<T>>, x: T)
    requires x in Flatten(g)
    ensures exists i, j :: 0 <= i < |g| && 0 <= j < |g[i]| && g[i][j] == x
  {
    if x in g[0] {
      var j :| 0 <= j < |g[0]| && g[0][j] == x;
      assert g[0][j] == x;
    } else {
      FlattenFrom(g[1..], x);
      var i, j :| 0 <= i < |g[1..]| && 0 <= j < |g[1..][i]| && g[1..][i][j] == x;
      assert g[i + 1][j] == x;
    }
  }

  /** Flattening one more row appends it. */
  lemma {:induction false} FlattenAppend<T>(g: seq<seq<T>>, r: seq<T>)
    ensures Flatten(g + [r]) == Flatten(g) + r
  {
    if g != [] {
      assert (g + [r])[1..] == g[1..] + [r];
      FlattenAppend(g[1..], r);
    } else {
      assert Flatten([r]) == r + Flatten([]);
    }
  }

  /** The position of cell `(i, j)` of a grid `w` wide in its flattening. */
  lemma {:induction false} FlattenIndex<T>(g: seq<seq<T>>, h: nat, w: nat, i: int, j: int)
    requires IsGrid(g, h, w) && 0 <= i < h && 0 <= j < w
    ensures |Flatten(g)| == h * w && i * w + j < h * w
    ensures Flatten(g)[i * w + j] == g[i][j]
  {
    FlattenLength(g, h, w);
    MulLess(i, h, w);
    if i > 0 {
      assert IsGrid(g[1..], h - 1, w);
      FlattenIndex(g[1..], h - 1, w, i - 1, j);
      RowShift(i, w, j);
      assert Flatten(g) == g[0] + Flatten(g[1..]);
    }
  }

  lemma RowShift(i: int, w: int, j: int)
    ensures i * w + j == w + ((i - 1) * w + j)
  {
  }

  lemma MulLess(i: nat, h: nat, w: nat)
    requires i < h
    ensures i * w + w <= h * w
  {
    assert h * w == i * w + (h - i) * w;
    assert (h - i) * w == w + (h - i - 1) * w;
  }

  lemma {:induction false} FlattenLength<T>(g: seq<seq<T>>, h: nat, w: nat)
    requires IsGrid(g, h, w)
    ensures |Flatten(g)| == h * w
  {
    if h > 0 {
      assert IsGrid(g[1..], h - 1, w);
      FlattenLength(g[1..], h - 1, w);
      assert h * w == w + (h - 1) * w;
    }
  }

  /** The smallest element of a non-empty sequence (numpy's `min`). */
  function SeqMin(s: seq<real>): (m: real)
    requires s != []
    ensures m in s
    ensures forall x :: x in s ==> m <= x
  {
    if |s| == 1 then s[0]
    else
      var rest := SeqMin(s[1..]);
      assert forall x :: x in s ==> x == s[0] || x in s[1..];
      if s[0] <= rest then s[0] else rest
  }

  /** The largest element of a non-empty sequence (numpy's `max`). */
  function SeqMax(s: seq<real>): (m: real)
    requires s != []
    ensures m in s
    ensures forall x :: x in s ==> x <= m
  {
    if |s| == 1 then s[0]
    else
      var rest := SeqMax(s[1..]);
      assert forall x :: x in s ==> x == s[0] || x in s[1..];
      if s[0] >= rest then s[0] else rest
  }

  /** The smallest cell of a grid with at least one cell. */
  function GridMin(g: seq<seq<real>>, h: nat, w: nat): (m: real)
    requires IsGrid(g, h, w) && h > 0 && w > 0
    ensures forall i, j :: 0 <= i < h && 0 <= j < w ==> m <= g[i][j]
    ensures exists i, j :: 0 <= i < h && 0 <= j < w && g[i][j] == m
  {
    var m := SeqMin(Flatten(g));
    assert forall i, j :: 0 <= i < h && 0 <= j < w ==> m <= g[i][j] by {
      forall i, j | 0 <= i < h && 0 <= j < w ensures m <= g[i][j] {
        FlattenHas(g, i, j);
      }
    }
    FlattenFrom(g, m);
    m
  }

  /** The largest cell of a grid with at least one cell. */
  function GridMax(g: seq<seq<real>>, h: nat, w: nat): (m: real)
    requires IsGrid(g, h, w) && h > 0 && w > 0
    ensures forall i, j :: 0 <= i < h && 0 <= j < w ==> g[i][j] <= m
    ensures exists i, j :: 0 <= i < h && 0 <= j < w && g[i][j] == m
  {
    var m := SeqMax(Flatten(g));
    assert forall i, j :: 0 <= i < h && 0 <= j < w ==> g[i][j] <= m by {
      forall i, j | 0 <= i < h && 0 <= j < w ensures g[i][j] <= m {
        FlattenHas(g, i, j);
      }
    }
    FlattenFrom(g, m);
    m
  }

  /** `np.pad(g, 1, mode='constant', constant_values=v)`: a border of `v` one cell wide. */
  function Pad<T>(g: seq<seq<T>>, h: nat, w: nat, v: T): (p: seq<seq<T>>)
    requires IsGrid(g, h, w)
    ensures IsGrid(p, h + 2, w + 2)
  {
    seq(h + 2, i requires 0 <= i < h + 2 =>
      seq(w + 2, j requires 0 <= j < w + 2 =>
        if 1 <= i <= h && 1 <= j <= w then g[i - 1][j - 1] else v))
  }

  /** `np.rot90(g, k=1)`: a quarter turn counter-clockwise; column `w-1` becomes row 0. */
  function Rot90<T>(g: seq<seq<T>>, h: nat, w: nat): (r: seq<seq<T>>)
    requires IsGrid(g, h, w)
    ensures IsGrid(r, w, h)
  {
    seq(w, i requires 0 <= i < w => seq(h, j requires 0 <= j < h => g[j][w - 1 - i]))
  }

  /** Where cell `c` of a grid `w` wide lands under `Rot90`. */
  function RotatePoint(w: int, c: Cell): Cell {
    (w - 1 - c.1, c.0)
  }

  /** The quarter turn moves every cell to its rotated position and keeps its value. */
  lemma RotatedCell<T>(g: seq<seq<T>>, h: nat, w: nat, c: Cell)
    requires IsGrid(g, h, w) && InGrid(c, h, w)
    ensures InGrid(RotatePoint(w, c), w, h)
    ensures Rot90(g, h, w)[RotatePoint(w, c).0][RotatePoint(w, c).1] == g[c.0][c.1]
  {
  }

  /** Padding then turning gives the same grid as turning then padding. */
  lemma PadRotCommute<T>(g: seq<seq<T>>, h: nat, w: nat, v: T)
    requires IsGrid(g, h, w)
    ensures Rot90(Pad(g, h, w, v), h + 2, w + 2) == Pad(Rot90(g, h, w), w, h, v)
  {
    var a := Rot90(Pad(g, h, w, v), h + 2, w + 2);
    var b := Pad(Rot90(g, h, w), w, h, v);
    assert |a| == |b|;
    forall i | 0 <= i < w + 2 ensures a[i] == b[i] {
      assert |a[i]| == |b[i]|;
      forall j | 0 <= j < h + 2 ensures a[i][j] == b[i][j] {
      }
    }
  }

  /** The padded position of a cell, turned, is the turned cell moved by one row and column. */
  lemma PaddedRotatePoint(w: int, c: Cell)
    ensures RotatePoint(w + 2, (c.0 + 1, c.1 + 1)) == (RotatePoint(w, c).0 + 1, RotatePoint(w, c).1 + 1)
  {
  }
}
