/**
 * The heuristic language: expression trees over the row/column grids and
 * the goal coordinates, with the three operations every node has —
 * `getSize` (Size), `toString` (ToString) and `interpret` (Interpret).
 * Values are exact reals; a value is either a scalar or a grid, and the
 * binary operators broadcast a scalar against a grid cell by cell, as
 * numpy does.
 */
module Dsl {
  import opened Grids

  /** A decimal digit. */
  type Digit = d: nat | d < 10

  /**
   * A numeric constant in the form Python prints it: a sign, the whole part
   * and, for a float literal, the digits after the point. `2` is
   * `Number(false, 2, [])` and `0.5` is `Number(false, 0, [5])`.
   */
  datatype Number = Number(negative: bool, whole: nat, fraction: seq<Digit>)

  /** A program of the heuristic grammar. */
  datatype Program =
    | Plus(left: Program, right: Program)
    | Minus(left: Program, right: Program)
    | Times(left: Program, right: Program)
    | Max(left: Program, right: Program)
    | Min(left: Program, right: Program)
    | Abs(value: Program)
    | Var(name: string)
    | Num(n: Number)

  // ---------------------------------------------------------------- size

  /** `getSize`: one per node. */
  function Size(p: Program): (r: nat)
    ensures r >= 1
  {
    match p
    case Plus(l, r) => Size(l) + Size(r) + 1
    case Minus(l, r) => Size(l) + Size(r) + 1
    case Times(l, r) => Size(l) + Size(r) + 1
    case Max(l, r) => Size(l) + Size(r) + 1
    case Min(l, r) => Size(l) + Size(r) + 1
    case Abs(v) => Size(v) + 1
    case Var(_) => 1
    case Num(_) => 1
  }

  /** Every node is counted once: a program's size is the number of its subtrees. */
  function Subtrees(p: Program): (s: seq<Program>)
  {
    [p] + match p
      case Plus(l, r) => Subtrees(l) + Subtrees(r)
      case Minus(l, r) => Subtrees(l) + Subtrees(r)
      case Times(l, r) => Subtrees(l) + Subtrees(r)
      case Max(l, r) => Subtrees(l) + Subtrees(r)
      case Min(l, r) => Subtrees(l) + Subtrees(r)
      case Abs(v) => Subtrees(v)
      case Var(_) => []
      case Num(_) => []
  }

  lemma {:induction false} SizeCountsNodes(p: Program)
    ensures Size(p) == |Subtrees(p)|
  {
    match p
    case Plus(l, r) => SizeCountsNodes(l); SizeCountsNodes(r);
    case Minus(l, r) => SizeCountsNodes(l); SizeCountsNodes(r);
    case Times(l, r) => SizeCountsNodes(l); SizeCountsNodes(r);
    case Max(l, r) => SizeCountsNodes(l); SizeCountsNodes(r);
    case Min(l, r) => SizeCountsNodes(l); SizeCountsNodes(r);
    case Abs(v) => SizeCountsNodes(v);
    case Var(_) =>
    case Num(_) =>
  }

  // ----------------------------------------------------------- rendering

  function DigitChar(d: Digit): (c: char)
    ensures '0' <= c <= '9'
  {
    "0123456789"[d]
  }

  /** The decimal text of a natural number, most significant digit first. */
  function NatText(n: nat): (s: string)
    ensures |s| >= 1
    ensures forall c :: c in s ==> '0' <= c <= '9'
  {
    if n < 10 then [DigitChar(n)] else NatText(n / 10) + [DigitChar(n % 10)]
  }

  function DigitsText(ds: seq<Digit>): (s: string)
    ensures |s| == |ds|
    ensures forall c :: c in s ==> '0' <= c <= '9'
  {
    seq(|ds|, k requires 0 <= k < |ds| => DigitChar(ds[k]))
  }

  /** `str(value)` of a constant: `"2"` for an int, `"0.5"` for a float. */
  function NumberText(x: Number): string {
    (if x.negative then "-" else "")
    + NatText(x.whole)
    + (if x.fraction == [] then "" else "." + DigitsText(x.fraction))
  }

  /** `toString`: fully bracketed infix for `+ - *`, call syntax for `max min abs`. */
  function ToString(p: Program): string {
    match p
    case Plus(l, r) => "(" + ToString(l) + " + " + ToString(r) + ")"
    case Minus(l, r) => "(" + ToString(l) + " - " + ToString(r) + ")"
    case Times(l, r) => "(" + ToString(l) + " * " + ToString(r) + ")"
    case Max(l, r) => "max(" + ToString(l) + ", " + ToString(r) + ")"
    case Min(l, r) => "min(" + ToString(l) + ", " + ToString(r) + ")"
    case Abs(v) => "abs(" + ToString(v) + ")"
    case Var(name) => name
    case Num(x) => NumberText(x)
  }

  // ------------------------------------------------------ interpretation

  /** The digits after the point, as a fraction in `[0, 1)`. */
  function FractionValue(ds: seq<Digit>): (r: real)
    ensures 0.0 <= r < 1.0
  {
    if ds == [] then 0.0 else (ds[0] as real + FractionValue(ds[1..])) / 10.0
  }

  function NumberValue(x: Number): real {
    var m := x.whole as real + FractionValue(x.fraction);
    if x.negative then -m else m
  }

  /** What a program evaluates to: a number, or a grid of numbers. */
  datatype Value = Scalar(x: real) | Grid(cells: seq<seq<real>>)

  /** The variable bindings `env` handed to `interpret`. */
  type Env = map<string, Value>

  /** A scalar, or a grid of `h` rows and `w` columns. */
  predicate Fits(v: Value, h: nat, w: nat) {
    v.Grid? ==> IsGrid(v.cells, h, w)
  }

  /** Every grid bound in `env` has the same shape. */
  predicate Shaped(env: Env, h: nat, w: nat) {
    forall x :: x in env ==> Fits(env[x], h, w)
  }

  /** The variable names a program reads. */
  function Vars(p: Program): set<string> {
    match p
    case Plus(l, r) => Vars(l) + Vars(r)
    case Minus(l, r) => Vars(l) + Vars(r)
    case Times(l, r) => Vars(l) + Vars(r)
    case Max(l, r) => Vars(l) + Vars(r)
    case Min(l, r) => Vars(l) + Vars(r)
    case Abs(v) => Vars(v)
    case Var(name) => {name}
    case Num(_) => {}
  }

  /** The value at cell `(i, j)`, a scalar standing for every cell (broadcasting). */
  function At(v: Value, i: int, j: int): real
    requires v.Grid? ==> 0 <= i < |v.cells| && 0 <= j < |v.cells[i]|
  {
    if v.Scalar? then v.x else v.cells[i][j]
  }

  datatype BinOp = Add | Sub | Mul | Maximum | Minimum

  function Apply(op: BinOp, x: real, y: real): real {
    match op
    case Add => x + y
    case Sub => x - y
    case Mul => x * y
    case Maximum => if x >= y then x else y
    case Minimum => if x <= y then x else y
  }

  function AbsReal(x: real): real {
    if x < 0.0 then -x else x
  }

  /** A binary operator on values: scalar with scalar, otherwise cell by cell. */
  function Combine(op: BinOp, a: Value, b: Value, ghost h: nat, ghost w: nat): (v: Value)
    requires Fits(a, h, w) && Fits(b, h, w)
    ensures Fits(v, h, w)
    ensures v.Grid? <==> a.Grid? || b.Grid?
  {
    if a.Scalar? && b.Scalar? then Scalar(Apply(op, a.x, b.x))
    else
      var g := if a.Grid? then a.cells else b.cells;
      Grid(seq(|g|, i requires 0 <= i < |g| =>
        seq(|g[i]|, j requires 0 <= j < |g[i]| => Apply(op, At(a, i, j), At(b, i, j)))))
  }

  /** `np.abs` of a value. */
  function AbsValue(a: Value, ghost h: nat, ghost w: nat): (v: Value)
    requires Fits(a, h, w)
    ensures Fits(v, h, w) && v.Grid? == a.Grid?
  {
    if a.Scalar? then Scalar(AbsReal(a.x))
    else Grid(seq(|a.cells|, i requires 0 <= i < |a.cells| =>
      seq(|a.cells[i]|, j requires 0 <= j < |a.cells[i]| => AbsReal(a.cells[i][j]))))
  }

  /**
   * `interpret(env)`. Every variable the program reads must be bound
   * (otherwise the lookup `env[name]` raises), and all grids in `env`
   * share one shape. The result is a grid exactly when the program reads
   * a variable bound to a grid.
   */
  function Interpret(p: Program, env: Env, ghost h: nat, ghost w: nat): (v: Value)
    requires Vars(p) <= env.Keys && Shaped(env, h, w)
    ensures Fits(v, h, w)
    ensures v.Grid? <==> exists x :: x in Vars(p) && env[x].Grid?
  {
    match p
    case Plus(l, r) => Combine(Add, Interpret(l, env, h, w), Interpret(r, env, h, w), h, w)
    case Minus(l, r) => Combine(Sub, Interpret(l, env, h, w), Interpret(r, env, h, w), h, w)
    case Times(l, r) => Combine(Mul, Interpret(l, env, h, w), Interpret(r, env, h, w), h, w)
    case Max(l, r) => Combine(Maximum, Interpret(l, env, h, w), Interpret(r, env, h, w), h, w)
    case Min(l, r) => Combine(Minimum, Interpret(l, env, h, w), Interpret(r, env, h, w), h, w)
    case Abs(v) => AbsValue(Interpret(v, env, h, w), h, w)
    case Var(name) => env[name]
    case Num(x) => Scalar(NumberValue(x))
  }

  /**
   * The reference semantics that `interpret` vectorises: the program read
   * as an ordinary arithmetic expression at one cell, each variable
   * standing for its value at that cell.
   */
  function EvalAt(p: Program, env: Env, i: int, j: int, ghost h: nat, ghost w: nat): real
    requires Vars(p) <= env.Keys && Shaped(env, h, w)
    requires 0 <= i < h && 0 <= j < w
  {
    match p
    case Plus(l, r) => Apply(Add, EvalAt(l, env, i, j, h, w), EvalAt(r, env, i, j, h, w))
    case Minus(l, r) => Apply(Sub, EvalAt(l, env, i, j, h, w), EvalAt(r, env, i, j, h, w))
    case Times(l, r) => Apply(Mul, EvalAt(l, env, i, j, h, w), EvalAt(r, env, i, j, h, w))
    case Max(l, r) => Apply(Maximum, EvalAt(l, env, i, j, h, w), EvalAt(r, env, i, j, h, w))
    case Min(l, r) => Apply(Minimum, EvalAt(l, env, i, j, h, w), EvalAt(r, env, i, j, h, w))
    case Abs(v) => AbsReal(EvalAt(v, env, i, j, h, w))
    case Var(name) => At(env[name], i, j)
    case Num(x) => NumberValue(x)
  }

  /** `interpret` is pointwise: every cell of the result is the expression evaluated at that cell. */
  lemma {:induction false} InterpretPointwise(p: Program, env: Env, h: nat, w: nat, i: int, j: int)
    requires Vars(p) <= env.Keys && Shaped(env, h, w)
    requires 0 <= i < h && 0 <= j < w
    decreases Size(p), 1
    ensures At(Interpret(p, env, h, w), i, j) == EvalAt(p, env, i, j, h, w)
  {
    match p
    case Plus(l, r) => BinaryPointwise(Add, l, r, env, h, w, i, j);
    case Minus(l, r) => BinaryPointwise(Sub, l, r, env, h, w, i, j);
    case Times(l, r) => BinaryPointwise(Mul, l, r, env, h, w, i, j);
    case Max(l, r) => BinaryPointwise(Maximum, l, r, env, h, w, i, j);
    case Min(l, r) => BinaryPointwise(Minimum, l, r, env, h, w, i, j);
    case Abs(v) =>
      InterpretPointwise(v, env, h, w, i, j);
      AbsAt(Interpret(v, env, h, w), h, w, i, j);
    case Var(_) =>
    case Num(_) =>
  }

  lemma {:induction false} BinaryPointwise(op: BinOp, l: Program, r: Program, env: Env, h: nat, w: nat, i: int, j: int)
    requires Vars(l) <= env.Keys && Vars(r) <= env.Keys && Shaped(env, h, w)
    requires 0 <= i < h && 0 <= j < w
    decreases Size(l) + Size(r) + 1, 0
    ensures At(Combine(op, Interpret(l, env, h, w), Interpret(r, env, h, w), h, w), i, j)
         == Apply(op, EvalAt(l, env, i, j, h, w), EvalAt(r, env, i, j, h, w))
  {
    InterpretPointwise(l, env, h, w, i, j);
    InterpretPointwise(r, env, h, w, i, j);
    CombineAt(op, Interpret(l, env, h, w), Interpret(r, env, h, w), h, w, i, j);
  }

  /** A combined value holds, at each cell, the operator applied to the operands' cells. */
  lemma CombineAt(op: BinOp, a: Value, b: Value, h: nat, w: nat, i: int, j: int)
    requires Fits(a, h, w) && Fits(b, h, w)
    requires 0 <= i < h && 0 <= j < w
    ensures At(Combine(op, a, b, h, w), i, j) == Apply(op, At(a, i, j), At(b, i, j))
  {
  }

  lemma AbsAt(a: Value, h: nat, w: nat, i: int, j: int)
    requires Fits(a, h, w)
    requires 0 <= i < h && 0 <= j < w
    ensures At(AbsValue(a, h, w), i, j) == AbsReal(At(a, i, j))
  {
  }

  /** `np.abs` never yields a negative cell. */
  lemma AbsNonNegative(v: Program, env: Env, h: nat, w: nat, i: int, j: int)
    requires Vars(v) <= env.Keys && Shaped(env, h, w)
    requires 0 <= i < h && 0 <= j < w
    ensures At(Interpret(Abs(v), env, h, w), i, j) >= 0.0
  {
  }

  /**
   * A program's value depends on the bindings of the variables it reads
   * and on nothing else; in particular a constant ignores `env`.
   */
  lemma {:induction false} InterpretReadsOnlyVars(p: Program, env1: Env, env2: Env, h: nat, w: nat)
    requires Vars(p) <= env1.Keys && Shaped(env1, h, w)
    requires Vars(p) <= env2.Keys && Shaped(env2, h, w)
    requires forall x :: x in Vars(p) ==> env1[x] == env2[x]
    ensures Interpret(p, env1, h, w) == Interpret(p, env2, h, w)
  {
    match p
    case Plus(l, r) => InterpretReadsOnlyVars(l, env1, env2, h, w); InterpretReadsOnlyVars(r, env1, env2, h, w);
    case Minus(l, r) => InterpretReadsOnlyVars(l, env1, env2, h, w); InterpretReadsOnlyVars(r, env1, env2, h, w);
    case Times(l, r) => InterpretReadsOnlyVars(l, env1, env2, h, w); InterpretReadsOnlyVars(r, env1, env2, h, w);
    case Max(l, r) => InterpretReadsOnlyVars(l, env1, env2, h, w); InterpretReadsOnlyVars(r, env1, env2, h, w);
    case Min(l, r) => InterpretReadsOnlyVars(l, env1, env2, h, w); InterpretReadsOnlyVars(r, env1, env2, h, w);
    case Abs(v) => InterpretReadsOnlyVars(v, env1, env2, h, w);
    case Var(_) =>
    case Num(_) =>
  }
}
