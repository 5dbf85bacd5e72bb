/**
 * The bottom-up enumerator: programs are kept in buckets keyed by a cost
 * (`plist`), each level combines every pair of programs whose bucket
 * costs add up to the level's size less one, scores each new rendering
 * once with the oracle, files the accepted ones under a cost computed from
 * their score and size, and restarts from size 1 after a best score that
 * improves on the one at the last restart by at least 5%.
 */
module Search {
  import opened Wrappers
  import opened Dsl
  import opened AStar
  import DslUnique

  // ------------------------------------------------------- combinations

  /**
   * The eleven candidates `generate_new_programs` yields for one pair, in
   * order: the five operators, `Minus` both ways round, and each but the
   * reversed `Minus` also wrapped in `Abs`.
   */
  function Combinations(p1: Program, p2: Program): (cs: seq<Program>)
    ensures |cs| == 11
    ensures forall k :: 0 <= k < 11 ==> Size(cs[k]) == Size(p1) + Size(p2) + if cs[k].Abs? then 2 else 1
    ensures forall k :: 0 <= k < 11 ==> Vars(cs[k]) == Vars(p1) + Vars(p2)
  {
    [Plus(p1, p2), Abs(Plus(p1, p2)),
     Minus(p1, p2), Minus(p2, p1), Abs(Minus(p1, p2)),
     Times(p1, p2), Abs(Times(p1, p2)),
     Max(p1, p2), Abs(Max(p1, p2)),
     Min(p1, p2), Abs(Min(p1, p2))]
  }

  // ------------------------------------------------------ valid sizes

  /** `tuple(sorted((s1, s2)))`. */
  function Ordered(a: nat, b: nat): (nat, nat) {
    if a <= b then (a, b) else (b, a)
  }

  /** A pair of bucket costs that makes a program of size `current`, smaller cost first. */
  predicate PairFor(q: (nat, nat), current: nat) {
    q.0 <= q.1 && q.0 + q.1 + 1 == current
  }

  /** One turn of the inner loop: the ordered pair is kept when the costs add up and it is new. */
  function Visit(acc: seq<(nat, nat)>, s1: nat, s2: nat, current: nat): seq<(nat, nat)> {
    if s1 + s2 + 1 == current && Ordered(s1, s2) !in acc then acc + [Ordered(s1, s2)] else acc
  }

  /** The inner loop for `size1 == s1` over the first `m` keys, after `acc`. */
  function ScanRow(s1: nat, keys: seq<nat>, m: nat, current: nat, acc: seq<(nat, nat)>): seq<(nat, nat)>
    requires m <= |keys|
  {
    if m == 0 then acc else Visit(ScanRow(s1, keys, m - 1, current, acc), s1, keys[m - 1], current)
  }

  /** `valid_sizes_list` after the outer loop has visited the first `n` keys. */
  function SizePairs(keys: seq<nat>, n: nat, current: nat): seq<(nat, nat)>
    requires n <= |keys|
  {
    if n == 0 then [] else ScanRow(keys[n - 1], keys, |keys|, current, SizePairs(keys, n - 1, current))
  }

  /** The inner loop adds exactly the new pairs it meets, each once. */
  lemma {:induction false} ScanRowMembers(s1: nat, keys: seq<nat>, m: nat, current: nat, acc: seq<(nat, nat)>)
    requires m <= |keys|
    ensures Distinct(acc) ==> Distinct(ScanRow(s1, keys, m, current, acc))
    ensures forall q :: q in ScanRow(s1, keys, m, current, acc) <==>
              q in acc || (PairFor(q, current) && ((q.0 == s1 && q.1 in keys[..m]) || (q.1 == s1 && q.0 in keys[..m])))
  {
    if m > 0 {
      ScanRowMembers(s1, keys, m - 1, current, acc);
      assert keys[..m] == keys[..m - 1] + [keys[m - 1]];
    }
  }

  /** After `n` outer turns the list holds each fitting pair with one side among the first `n` keys, once. */
  lemma {:induction false} SizePairsMembers(keys: seq<nat>, n: nat, current: nat)
    requires n <= |keys|
    ensures Distinct(SizePairs(keys, n, current))
    ensures forall q :: q in SizePairs(keys, n, current) <==>
              PairFor(q, current) && ((q.0 in keys[..n] && q.1 in keys) || (q.1 in keys[..n] && q.0 in keys))
  {
    if n > 0 {
      SizePairsMembers(keys, n - 1, current);
      ScanRowMembers(keys[n - 1], keys, |keys|, current, SizePairs(keys, n - 1, current));
      assert keys[..n] == keys[..n - 1] + [keys[n - 1]];
      assert keys[..|keys|] == keys;
    }
  }

  /**
   * `get_valid_program_sizes` lists every pair of existing bucket costs,
   * smaller first, that adds up to `current - 1`, and each exactly once.
   */
  lemma ValidSizesExact(keys: seq<nat>, current: nat)
    ensures Distinct(SizePairs(keys, |keys|, current))
    ensures forall q :: q in SizePairs(keys, |keys|, current) <==> PairFor(q, current) && q.0 in keys && q.1 in keys
  {
    SizePairsMembers(keys, |keys|, current);
    assert keys[..|keys|] == keys;
  }

  // ------------------------------------------------------ generation

  /** The candidates for `p` against each program of `ps` in turn. */
  function Against(p: Program, ps: seq<Program>): seq<Program> {
    if ps == [] then [] else Against(p, ps[..|ps| - 1]) + Combinations(p, ps[|ps| - 1])
  }

  /** The two inner loops of `generate_new_programs` for one pair of buckets. */
  function Products(ps1: seq<Program>, ps2: seq<Program>): seq<Program> {
    if ps1 == [] then [] else Products(ps1[..|ps1| - 1], ps2) + Against(ps1[|ps1| - 1], ps2)
  }

  ghost predicate Listed(pairs: seq<(nat, nat)>, table: map<nat, seq<Program>>) {
    forall q :: q in pairs ==> q.0 in table && q.1 in table
  }

  /** Everything `generate_new_programs` yields for the size pairs `pairs` over the buckets `table`. */
  function Generated(pairs: seq<(nat, nat)>, table: map<nat, seq<Program>>): seq<Program>
    requires Listed(pairs, table)
  {
    if pairs == [] then []
    else
      var q := pairs[|pairs| - 1];
      Generated(pairs[..|pairs| - 1], table) + Products(table[q.0], table[q.1])
  }

  /** `total_new_programs`: eleven candidates for every pair of programs from every listed pair of buckets. */
  function CandidateCount(pairs: seq<(nat, nat)>, table: map<nat, seq<Program>>): nat
    requires Listed(pairs, table)
  {
    if pairs == [] then 0
    else
      var q := pairs[|pairs| - 1];
      CandidateCount(pairs[..|pairs| - 1], table) + |table[q.0]| * |table[q.1]| * 11
  }

  lemma {:induction false} AgainstCount(p: Program, ps: seq<Program>)
    ensures |Against(p, ps)| == |ps| * 11
  {
    if ps != [] {
      AgainstCount(p, ps[..|ps| - 1]);
    }
  }

  lemma {:induction false} ProductsCount(ps1: seq<Program>, ps2: seq<Program>)
    ensures |Products(ps1, ps2)| == |ps1| * |ps2| * 11
  {
    if ps1 != [] {
      ProductsCount(ps1[..|ps1| - 1], ps2);
      AgainstCount(ps1[|ps1| - 1], ps2);
      assert |ps1| * |ps2| * 11 == (|ps1| - 1) * |ps2| * 11 + |ps2| * 11;
    }
  }

  /** `total_new_programs` is the number of programs the generator yields. */
  lemma {:induction false} GeneratedCount(pairs: seq<(nat, nat)>, table: map<nat, seq<Program>>)
    requires Listed(pairs, table)
    ensures |Generated(pairs, table)| == CandidateCount(pairs, table)
  {
    if pairs != [] {
      var q := pairs[|pairs| - 1];
      GeneratedCount(pairs[..|pairs| - 1], table);
      ProductsCount(table[q.0], table[q.1]);
    }
  }

  lemma {:induction false} AgainstFrom(p: Program, ps: seq<Program>)
    ensures forall x :: x in Against(p, ps) ==> exists p2 :: p2 in ps && x in Combinations(p, p2)
  {
    if ps != [] {
      AgainstFrom(p, ps[..|ps| - 1]);
      forall x | x in Against(p, ps) ensures exists p2 :: p2 in ps && x in Combinations(p, p2) {
        if x in Against(p, ps[..|ps| - 1]) {
          var p2 :| p2 in ps[..|ps| - 1] && x in Combinations(p, p2);
          assert p2 in ps;
        } else {
          assert x in Combinations(p, ps[|ps| - 1]);
        }
      }
    }
  }

  lemma {:induction false} ProductsFrom(ps1: seq<Program>, ps2: seq<Program>)
    ensures forall x :: x in Products(ps1, ps2) ==> exists p1, p2 :: p1 in ps1 && p2 in ps2 && x in Combinations(p1, p2)
  {
    if ps1 != [] {
      var last := ps1[|ps1| - 1];
      ProductsFrom(ps1[..|ps1| - 1], ps2);
      AgainstFrom(last, ps2);
      forall x | x in Products(ps1, ps2) ensures exists p1, p2 :: p1 in ps1 && p2 in ps2 && x in Combinations(p1, p2) {
        if x in Products(ps1[..|ps1| - 1], ps2) {
          var p1, p2 :| p1 in ps1[..|ps1| - 1] && p2 in ps2 && x in Combinations(p1, p2);
          assert p1 in ps1;
        } else {
          var p2 :| p2 in ps2 && x in Combinations(last, p2);
          assert last in ps1;
        }
      }
    }
  }

  /**
   * Every candidate of a level combines two programs held, in the snapshot
   * taken when the level began, by a listed pair of buckets.
   */
  lemma {:induction false} GeneratedFrom(pairs: seq<(nat, nat)>, table: map<nat, seq<Program>>)
    requires Listed(pairs, table)
    ensures forall x :: x in Generated(pairs, table) ==>
              exists q, p1, p2 :: q in pairs && p1 in table[q.0] && p2 in table[q.1] && x in Combinations(p1, p2)
  {
    if pairs != [] {
      var q := pairs[|pairs| - 1];
      var init := pairs[..|pairs| - 1];
      GeneratedFrom(init, table);
      ProductsFrom(table[q.0], table[q.1]);
      forall x | x in Generated(pairs, table)
        ensures exists q, p1, p2 :: q in pairs && p1 in table[q.0] && p2 in table[q.1] && x in Combinations(p1, p2)
      {
        if x in Generated(init, table) {
          var q', p1, p2 :| q' in init && p1 in table[q'.0] && p2 in table[q'.1] && x in Combinations(p1, p2);
          assert q' in pairs;
        } else {
          var p1, p2 :| p1 in table[q.0] && p2 in table[q.1] && x in Combinations(p1, p2);
          assert q in pairs;
        }
      }
    }
  }

  /** Programs over the oracle's names combine into programs over the oracle's names. */
  lemma GeneratedInVocabulary(pairs: seq<(nat, nat)>, table: map<nat, seq<Program>>)
    requires Listed(pairs, table) && Vocabulary(table)
    ensures forall x :: x in Generated(pairs, table) ==> InVocabulary(x)
  {
    GeneratedFrom(pairs, table);
    forall x | x in Generated(pairs, table) ensures InVocabulary(x) {
      var q, p1, p2 :| q in pairs && p1 in table[q.0] && p2 in table[q.1] && x in Combinations(p1, p2);
      var k :| 0 <= k < 11 && Combinations(p1, p2)[k] == x;
      assert InVocabulary(p1) && InVocabulary(p2);
      assert Vars(x) == Vars(p1) + Vars(p2);
    }
  }

  // --------------------------------------------------------- buckets

  /** `plist`: the bucket costs in the order they were first used (a dict's key order), and each bucket's programs. */
  datatype Buckets = Buckets(sizes: seq<nat>, table: map<nat, seq<Program>>)

  /** The key order lists each bucket once. */
  ghost predicate Keyed(b: Buckets) {
    Distinct(b.sizes) && forall s :: s in b.table <==> s in b.sizes
  }

  /** Every program in the buckets reads only names the oracle binds. */
  ghost predicate Vocabulary(table: map<nat, seq<Program>>) {
    forall s, p :: s in table && p in table[s] ==> InVocabulary(p)
  }

  /** `plist[1] = grammar_constants`. */
  function InitialBuckets(constants: seq<Program>): (b: Buckets)
    ensures Keyed(b) && b.table.Keys == {1}
  {
    Buckets([1], map[1 := constants])
  }

  /** `b'` keeps every bucket of `b`, in the same order, and every program of each, in the same order. */
  ghost predicate Extends(b: Buckets, b': Buckets) {
    b.sizes <= b'.sizes && forall s :: s in b.table ==> s in b'.table && b.table[s] <= b'.table[s]
  }

  lemma ExtendsTrans(a: Buckets, b: Buckets, c: Buckets)
    requires Extends(a, b) && Extends(b, c)
    ensures Extends(a, c)
  {
    assert a.sizes <= c.sizes by {
      assert forall k :: 0 <= k < |a.sizes| ==> a.sizes[k] == b.sizes[k] == c.sizes[k];
    }
    forall s | s in a.table ensures s in c.table && a.table[s] <= c.table[s] {
      assert forall k :: 0 <= k < |a.table[s]| ==> a.table[s][k] == b.table[s][k] == c.table[s][k];
    }
  }

  /**
   * `if mod_size not in plist: plist[mod_size] = []` and
   * `plist[mod_size].append(p)`: `p` joins the end of its bucket, a new
   * bucket joining the end of the key order.
   */
  function Put(b: Buckets, size: nat, p: Program): (b': Buckets)
    ensures Extends(b, b') && (Keyed(b) ==> Keyed(b'))
    ensures b'.table.Keys == b.table.Keys + {size}
    ensures b'.table[size] == (if size in b.table then b.table[size] else []) + [p]
    ensures forall s :: s in b.table && s != size ==> b'.table[s] == b.table[s]
  {
    if size in b.table then Buckets(b.sizes, b.table[size := b.table[size] + [p]])
    else Buckets(b.sizes + [size], b.table[size := [p]])
  }

  // -------------------------------------------------- bucket cost

  /** `performance_type`: the two forms of the performance term. */
  datatype PerformanceType = Zero | One

  /** The argument of `math.log` in the performance term. */
  function PerformanceArgument(t: PerformanceType, numIters: nat, numPairs: nat): real
    requires numPairs > 0
  {
    match t
    case Zero => numIters as real / numPairs as real + 0.0001
    case One => (numIters + 1) as real / (numPairs + 1) as real
  }

  /** The argument of the logarithm is always positive, so the logarithm is defined; the `One` form is at most 1 for a completed run. */
  lemma PerformanceArgumentPositive(t: PerformanceType, numIters: nat, numPairs: nat)
    requires numPairs > 0
    ensures PerformanceArgument(t, numIters, numPairs) > 0.0
    ensures t == One && numIters <= numPairs ==> PerformanceArgument(t, numIters, numPairs) <= 1.0
  {
  }

  /**
   * The bucket of an accepted program: `floor(perf + reg + 1)`, or
   * `floor(perf) + floor(reg) + 1` when the two terms are floored
   * individually, never above the program's size. A negative result stops
   * the search.
   */
  function ModSize(perf: real, reg: real, size: nat, floorIndividually: bool): int {
    var raw := if floorIndividually then perf.Floor + reg.Floor + 1 else (perf + reg + 1.0).Floor;
    if raw < size then raw else size
  }

  /** The bucket never exceeds the size, and below it is the floor of the cost of the program. */
  lemma ModSizeBounds(perf: real, reg: real, size: nat, floorIndividually: bool)
    ensures var m := ModSize(perf, reg, size, floorIndividually);
            m <= size
            && (!floorIndividually ==>
                  (m == size && size as real <= perf + reg + 1.0) || (m < size && m as real <= perf + reg + 1.0 < m as real + 1.0))
            && (floorIndividually ==> m == size || ((m - 1) as real <= perf + reg < (m + 1) as real))
  {
  }

  /** Flooring the two terms individually gives the same bucket as flooring their sum, or the one below it. */
  lemma FloorIndividuallyBelow(perf: real, reg: real, size: nat)
    ensures var joint := ModSize(perf, reg, size, false);
            var apart := ModSize(perf, reg, size, true);
            apart <= joint && (joint == size || joint - 1 <= apart)
  {
    var a, b, c := perf.Floor, reg.Floor, (perf + reg + 1.0).Floor;
    assert a + b + 1 <= c <= a + b + 2 by {
      assert (a + b + 1) as real <= perf + reg + 1.0 < (a + b + 3) as real;
    }
  }

  // -------------------------------------------------------- restarts

  /**
   * `avg_steps / best_avg_steps_upon_last_reset <= 0.95` for averages kept
   * as totals over the same number of pairs; a finite average over the
   * initial `inf` is 0, and an infinite one never passes.
   */
  predicate ImprovesEnough(avg: AvgSteps, baseline: AvgSteps) {
    match (avg, baseline)
    case (Finite(t), Inf) => true
    case (Finite(t), Finite(b)) => 20 * t <= 19 * b
    case (Inf, _) => false
  }

  /** Dividing both totals by the same number of pairs leaves their ratio alone. */
  lemma AveragesRatio(t: nat, b: nat, n: nat)
    requires b > 0 && n > 0
    ensures (t as real / n as real) / (b as real / n as real) == t as real / b as real
  {
    var x, y, m := t as real / n as real, b as real / n as real, n as real;
    assert x * m == t as real && y * m == b as real;
    assert y > 0.0;
    calc {
      (x / y) * b as real;
      (x / y) * (y * m);
      { assert (x / y) * y == x; }
      x * m;
    }
  }

  /** The test on totals is the source's test on the averages `t / n` and `b / n`. */
  lemma ImprovesEnoughRatio(t: nat, b: nat, n: nat)
    requires b > 0 && n > 0
    ensures ImprovesEnough(Finite(t), Finite(b)) <==> (t as real / n as real) / (b as real / n as real) <= 0.95
  {
    AveragesRatio(t, b, n);
    var r := t as real / b as real;
    assert r * b as real == t as real;
    assert r <= 0.95 <==> r * b as real <= 0.95 * b as real;
  }

  /** A restart improves on the baseline, so the best score it follows is strictly lower. */
  lemma ImprovesEnoughIsBelow(avg: AvgSteps, baseline: AvgSteps)
    requires ImprovesEnough(avg, baseline) && (baseline.Finite? ==> baseline.total > 0)
    ensures Below(avg, baseline)
  {
  }

  /**
   * A level flags a restart when its best score differs from the one it
   * started with and that best improves enough on the baseline: the flag
   * is raised by the improvement that first passes the test, and every
   * later improvement within the level passes it too.
   */
  predicate Flagged(before: AvgSteps, best: AvgSteps, baseline: AvgSteps) {
    best != before && ImprovesEnough(best, baseline)
  }

  /** Passing the restart test is kept by every further improvement. */
  lemma ImprovesEnoughMonotone(a: AvgSteps, b: AvgSteps, baseline: AvgSteps)
    requires Below(a, b) && ImprovesEnough(b, baseline)
    ensures ImprovesEnough(a, baseline)
  {
  }

  /**
   * One candidate of a level keeps the flag equal to `Flagged`: with no
   * improvement nothing changes, and an improvement raises the flag
   * exactly when it passes the test.
   */
  lemma FlaggedStep(start: AvgSteps, best: AvgSteps, best': AvgSteps, baseline: AvgSteps)
    requires best == start || Below(best, start)
    requires best' == best || Below(best', best)
    ensures best' == best ==> (Flagged(start, best', baseline) <==> Flagged(start, best, baseline))
    ensures Below(best', best) ==>
      (Flagged(start, best', baseline) <==> (ImprovesEnough(best', baseline) || Flagged(start, best, baseline)))
  {
    if Below(best', best) && Flagged(start, best, baseline) {
      ImprovesEnoughMonotone(best', best, baseline);
    }
  }

  /** The search's termination measure: a total, with `inf` above every total up to `cap`. */
  function Rank(a: AvgSteps, cap: nat): nat {
    match a
    case Inf => cap + 1
    case Finite(t) => if t <= cap then t else cap + 1
  }

  /** A better score within the cap has a lower rank. */
  lemma BelowRank(a: AvgSteps, b: AvgSteps, cap: nat)
    requires Below(a, b) && (a.Finite? ==> a.total <= cap)
    ensures Rank(a, cap) < Rank(b, cap)
  {
  }

  // ------------------------------------------------------- the registry

  /** The oracle's four names read back unambiguously. */
  lemma VocabularyNamed(p: Program)
    requires InVocabulary(p)
    ensures DslUnique.Named(p)
  {
    forall x | x in Vars(p) ensures DslUnique.GoodName(x) {
      assert x == StateX || x == StateY || x == GoalX || x == GoalY;
    }
  }

  /**
   * The registry of renderings is a registry of programs: within the
   * oracle's vocabulary two programs render alike exactly when they are
   * equal, so skipping a rendering already seen skips only a program that
   * was already scored.
   */
  lemma RenderingIdentifies(p: Program, q: Program)
    requires InVocabulary(p) && InVocabulary(q)
    ensures ToString(p) == ToString(q) <==> p == q
  {
    VocabularyNamed(p);
    VocabularyNamed(q);
    DslUnique.RenderUnique(p, q);
  }

  // ------------------------------------------------------- the search

  class ProgSearch {
    const bound: nat
    const grammarConstants: seq<Program>
    const evaluator: AStar
    /** `math.log(x, base)`, used as given. */
    const log: (real, real) -> real
    /** `x ** y` on reals, used as given. */
    const pow: (real, real) -> real

    var performanceType: PerformanceType
    var performanceLogBase: real
    var regularizationDivisor: real
    var regularizationPower: real
    var floorIndividually: bool
    var compareNormalizedCosts: bool
    ghost var hyperparametersSet: bool

    var bestAvgSteps: AvgSteps
    var bestAvgStepsUponLastReset: AvgSteps
    var bestProgram: Option<Program>
    var plist: Buckets
    var progsEvaled: set<string>
    /** The renderings scored so far, in order. */
    ghost var scored: seq<string>
    var currentSize: nat
    var resetSize: bool
    var validSizesList: seq<(nat, nat)>
    var totalNewPrograms: nat

    /** The largest total the oracle reports for a completed heuristic. */
    function Cap(): nat {
      Sum(PairCount(evaluator.rotateMaze, evaluator.numPairs), MaxWalk(evaluator.msy, evaluator.msx))
    }

    /** The oracle is loaded, prepared, and keeps its best score and its flag in step. */
    ghost predicate OracleReady()
      reads evaluator`stateX, evaluator`stateY, evaluator`rotatedStarts, evaluator`rotatedEnds, evaluator`partIdxDict,
            evaluator`bestAvgSteps, evaluator`bestAvgStepsNotInf
    {
      evaluator.Prepared() && evaluator.BestKnown()
    }

    /** `initialize_hyperparameters` has run, with a divisor the regularisation term can divide by. */
    ghost predicate Configured()
      reads this`hyperparametersSet, this`regularizationDivisor
    {
      hyperparametersSet && regularizationDivisor != 0.0
    }

    /** Each bucket is listed once in the key order and holds programs over the oracle's names. */
    ghost predicate Filed()
      reads this`plist
    {
      Keyed(plist) && Vocabulary(plist.table)
    }

    /** `progs_evaled` holds exactly the renderings scored so far, each scored once. */
    ghost predicate RecordedOnce()
      reads this`progsEvaled, this`scored
    {
      Distinct(scored) && forall x :: x in progsEvaled <==> x in scored
    }

    /**
     * The best score and the restart baseline are positive totals, the best
     * one within the cap, and a best program is known once a score is.
     */
    ghost predicate ScoresBounded()
      reads this`bestAvgSteps, this`bestAvgStepsUponLastReset, this`bestProgram
    {
      (bestProgram.Some? <==> bestAvgSteps.Finite?)
      && (bestAvgSteps.Finite? ==> 0 < bestAvgSteps.total <= Cap())
      && (bestAvgStepsUponLastReset.Finite? ==> bestAvgStepsUponLastReset.total > 0)
    }

    /** The search's state between candidates. */
    ghost predicate Valid()
      reads evaluator`stateX, evaluator`stateY, evaluator`rotatedStarts, evaluator`rotatedEnds, evaluator`partIdxDict,
            evaluator`bestAvgSteps, evaluator`bestAvgStepsNotInf,
            this`hyperparametersSet, this`regularizationDivisor, this`plist, this`progsEvaled, this`scored,
            this`bestAvgSteps, this`bestAvgStepsUponLastReset, this`bestProgram
    {
      OracleReady() && Configured() && Filed() && RecordedOnce() && ScoresBounded()
    }

    constructor (bound: nat, grammarConstants: seq<Program>, evaluator: AStar,
                 log: (real, real) -> real, pow: (real, real) -> real)
      ensures this.bound == bound && this.grammarConstants == grammarConstants && this.evaluator == evaluator
      ensures this.log == log && this.pow == pow && !hyperparametersSet
    {
      this.bound := bound;
      this.grammarConstants := grammarConstants;
      this.evaluator := evaluator;
      this.log := log;
      this.pow := pow;
      hyperparametersSet := false;
    }

    /** `initialize_hyperparameters`; the two performance types are the two values of `PerformanceType`. */
    method InitializeHyperparameters(performanceType: PerformanceType, performanceLogBase: real,
                                     regularizationDivisor: real, regularizationPower: real,
                                     floorIndividually: bool, compareNormalizedCosts: bool)
      modifies this`performanceType, this`performanceLogBase, this`regularizationDivisor,
               this`regularizationPower, this`floorIndividually, this`compareNormalizedCosts, this`hyperparametersSet
      ensures this.performanceType == performanceType && this.performanceLogBase == performanceLogBase
      ensures this.regularizationDivisor == regularizationDivisor && this.regularizationPower == regularizationPower
      ensures this.floorIndividually == floorIndividually && this.compareNormalizedCosts == compareNormalizedCosts
      ensures hyperparametersSet
    {
      this.performanceType := performanceType;
      this.performanceLogBase := performanceLogBase;
      this.regularizationDivisor := regularizationDivisor;
      this.regularizationPower := regularizationPower;
      this.floorIndividually := floorIndividually;
      this.compareNormalizedCosts := compareNormalizedCosts;
      hyperparametersSet := true;
    }

    /** The bucket of an accepted program `h` whose oracle call reported `numIters` (search.py:72-88). */
    function Bucket(h: Program, numIters: nat): int
      reads this`performanceType, this`performanceLogBase, this`regularizationDivisor,
            this`regularizationPower, this`floorIndividually
      requires evaluator.numPairs > 0 && regularizationDivisor != 0.0
    {
      var perf := log(PerformanceArgument(performanceType, numIters, evaluator.numPairs), performanceLogBase);
      var reg := pow(Size(h) as real / regularizationDivisor, regularizationPower);
      ModSize(perf, reg, Size(h), floorIndividually)
    }

    /** `get_valid_program_sizes`: the size pairs of the level and the number of candidates they give. */
    method GetValidProgramSizes(progDict: Buckets)
      requires Keyed(progDict)
      modifies this`validSizesList, this`totalNewPrograms
      ensures validSizesList == SizePairs(progDict.sizes, |progDict.sizes|, currentSize)
      ensures Listed(validSizesList, progDict.table)
      ensures totalNewPrograms == CandidateCount(validSizesList, progDict.table)
    {
      validSizesList, totalNewPrograms := ValidProgramSizes(progDict, currentSize);
    }

    /** `generate_new_programs`, its candidates gathered in the order it yields them. */
    method GenerateNewPrograms(progDict: Buckets) returns (programs: seq<Program>)
      requires Listed(validSizesList, progDict.table)
      ensures programs == Generated(validSizesList, progDict.table)
    {
      var pairs, table := validSizesList, progDict.table;
      programs := [];
      for k := 0 to |pairs|
        invariant programs == Generated(pairs[..k], table)
      {
        var q := pairs[k];
        var products := ProductsOf(table[q.0], table[q.1]);
        programs := programs + products;
        assert pairs[..k + 1][..k] == pairs[..k];
      }
      assert pairs[..|pairs|] == pairs;
    }

    /** `run_a_star(h, compare_normalized_costs)`, which also updates the oracle's own best score. */
    method Score(h: Program) returns (avgSteps: AvgSteps, accepted: Option<bool>, completed: Option<nat>)
      requires OracleReady() && InVocabulary(h)
      modifies evaluator`bestAvgSteps, evaluator`bestAvgStepsNotInf, evaluator`costsArraySet
      ensures OracleReady()
      ensures accepted == Some(true) ==> completed.Some?
      ensures avgSteps.Finite? ==> 0 < avgSteps.total <= Cap()
    {
      ghost var spent;
      avgSteps, accepted, completed, spent := evaluator.RunAStar(h, compareNormalizedCosts, true);
    }

    /**
     * One candidate of a level (search.py:48-124): a rendering not scored
     * before is recorded and scored; an accepted one is filed under its
     * bucket, unless the bucket is negative, which stops the search; a
     * score below the best becomes the best, and flags a restart when it
     * improves on the baseline by 5%.
     */
    method Consider(h: Program)
      returns (evaluated: bool, avgSteps: AvgSteps, accepted: Option<bool>, completed: Option<nat>, bucket: int, halted: bool)
      requires Valid() && InVocabulary(h)
      modifies this`plist, this`progsEvaled, this`scored, this`bestAvgSteps, this`bestProgram, this`resetSize,
               evaluator`bestAvgSteps, evaluator`bestAvgStepsNotInf, evaluator`costsArraySet
      ensures Valid()
      ensures evaluated <==> ToString(h) !in old(progsEvaled)
      ensures progsEvaled == old(progsEvaled) + {ToString(h)}
      ensures scored == if evaluated then old(scored) + [ToString(h)] else old(scored)
      ensures !evaluated ==> avgSteps == Inf && accepted == None && unchanged(evaluator)
      ensures accepted == Some(true) ==> completed.Some? && bucket == Bucket(h, completed.value)
      ensures halted <==> accepted == Some(true) && bucket < 0
      ensures plist == if accepted == Some(true) && !halted then Put(old(plist), bucket as nat, h) else old(plist)
      ensures var improved := !halted && Below(avgSteps, old(bestAvgSteps));
              bestAvgSteps == (if improved then avgSteps else old(bestAvgSteps))
              && bestProgram == (if improved then Some(h) else old(bestProgram))
              && resetSize == (old(resetSize) || (improved && ImprovesEnough(avgSteps, bestAvgStepsUponLastReset)))
    {
      evaluated, avgSteps, accepted, completed, bucket, halted := false, Inf, None, None, 0, false;
      var text := ToString(h);
      if text !in progsEvaled {
        evaluated := true;
        Note(text);
        avgSteps, accepted, completed, bucket, halted := Assess(h);
      }
    }

    /** Scoring a new candidate, filing it when accepted and keeping the best score (search.py:50-124). */
    method Assess(h: Program)
      returns (avgSteps: AvgSteps, accepted: Option<bool>, completed: Option<nat>, bucket: int, halted: bool)
      requires OracleReady() && Configured() && Filed() && ScoresBounded() && InVocabulary(h)
      modifies this`plist, this`bestAvgSteps, this`bestProgram, this`resetSize,
               evaluator`bestAvgSteps, evaluator`bestAvgStepsNotInf, evaluator`costsArraySet
      ensures OracleReady() && Filed() && ScoresBounded()
      ensures accepted == Some(true) ==> completed.Some? && bucket == Bucket(h, completed.value)
      ensures halted <==> accepted == Some(true) && bucket < 0
      ensures plist == if accepted == Some(true) && !halted then Put(old(plist), bucket as nat, h) else old(plist)
      ensures var improved := !halted && Below(avgSteps, old(bestAvgSteps));
              bestAvgSteps == (if improved then avgSteps else old(bestAvgSteps))
              && bestProgram == (if improved then Some(h) else old(bestProgram))
              && resetSize == (old(resetSize) || (improved && ImprovesEnough(avgSteps, bestAvgStepsUponLastReset)))
    {
      halted, bucket := false, 0;
      avgSteps, accepted, completed := Score(h);
      if accepted == Some(true) {
        bucket, halted := FileAccepted(h, completed.value);
      }
      if !halted {
        Improve(h, avgSteps);
      }
    }

    /** `progs_evaled.add(...)` for a rendering not scored before. */
    method Note(text: string)
      requires RecordedOnce() && text !in progsEvaled
      modifies this`progsEvaled, this`scored
      ensures RecordedOnce()
      ensures progsEvaled == old(progsEvaled) + {text} && scored == old(scored) + [text]
    {
      progsEvaled := progsEvaled + {text};
      scored := scored + [text];
    }

    /**
     * An accepted program joins the end of its bucket (search.py:72-104),
     * unless the bucket is negative, which stops the search.
     */
    method FileAccepted(h: Program, numIters: nat) returns (bucket: int, halted: bool)
      requires Filed() && Configured() && evaluator.numPairs > 0 && InVocabulary(h)
      modifies this`plist
      ensures bucket == Bucket(h, numIters) && (halted <==> bucket < 0)
      ensures Filed() && plist == if halted then old(plist) else Put(old(plist), bucket as nat, h)
    {
      bucket := Bucket(h, numIters);
      halted := bucket < 0;
      if !halted {
        plist := Put(plist, bucket as nat, h);
      }
    }

    /** A score below the best becomes the best; a 5% improvement on the baseline flags a restart (search.py:109-124). */
    method Improve(h: Program, avgSteps: AvgSteps)
      requires ScoresBounded() && (avgSteps.Finite? ==> 0 < avgSteps.total <= Cap())
      modifies this`bestAvgSteps, this`bestProgram, this`resetSize
      ensures ScoresBounded()
      ensures var improved := Below(avgSteps, old(bestAvgSteps));
              bestAvgSteps == (if improved then avgSteps else old(bestAvgSteps))
              && bestProgram == (if improved then Some(h) else old(bestProgram))
              && resetSize == (old(resetSize) || (improved && ImprovesEnough(avgSteps, bestAvgStepsUponLastReset)))
    {
      if Below(avgSteps, bestAvgSteps) {
        if ImprovesEnough(avgSteps, bestAvgStepsUponLastReset) {
          resetSize := true;
        }
        bestAvgSteps := avgSteps;
        bestProgram := Some(h);
      }
    }

    /**
     * One level of the search (search.py:44-124): the size pairs and the
     * candidates are taken from a snapshot of the buckets made when the
     * level starts, so programs filed during the level are combined only
     * at later levels.
     */
    method ExpandLevel() returns (halted: bool)
      requires Valid()
      modifies this`plist, this`progsEvaled, this`scored, this`bestAvgSteps, this`bestProgram, this`resetSize,
               this`validSizesList, this`totalNewPrograms,
               evaluator`bestAvgSteps, evaluator`bestAvgStepsNotInf, evaluator`costsArraySet
      ensures Valid()
      ensures Extends(old(plist), plist) && old(progsEvaled) <= progsEvaled
      ensures bestAvgSteps == old(bestAvgSteps) || Below(bestAvgSteps, old(bestAvgSteps))
      ensures resetSize <==> old(resetSize) || Flagged(old(bestAvgSteps), bestAvgSteps, bestAvgStepsUponLastReset)
    {
      var currentPlist := plist;
      GetValidProgramSizes(currentPlist);
      var candidates := GenerateNewPrograms(currentPlist);
      GeneratedInVocabulary(validSizesList, currentPlist.table);
      halted := false;
      for i := 0 to |candidates|
        invariant Valid()
        invariant Extends(currentPlist, plist) && old(progsEvaled) <= progsEvaled
        invariant bestAvgSteps == old(bestAvgSteps) || Below(bestAvgSteps, old(bestAvgSteps))
        invariant resetSize <==> old(resetSize) || Flagged(old(bestAvgSteps), bestAvgSteps, bestAvgStepsUponLastReset)
      {
        halted := NextCandidate(candidates[i], currentPlist, old(bestAvgSteps), old(resetSize));
        if halted {
          return;
        }
      }
    }

    /**
     * One turn of the candidate loop of a level that started from the
     * buckets `snapshot`, the best score `levelBest` and the flag
     * `levelReset`: the buckets still extend the snapshot, the best only
     * falls, and the flag is raised exactly by an improvement that passes
     * the restart test.
     */
    method NextCandidate(h: Program, ghost snapshot: Buckets, ghost levelBest: AvgSteps, ghost levelReset: bool)
      returns (halted: bool)
      requires Valid() && InVocabulary(h) && Extends(snapshot, plist)
      requires bestAvgSteps == levelBest || Below(bestAvgSteps, levelBest)
      requires resetSize <==> levelReset || Flagged(levelBest, bestAvgSteps, bestAvgStepsUponLastReset)
      modifies this`plist, this`progsEvaled, this`scored, this`bestAvgSteps, this`bestProgram, this`resetSize,
               evaluator`bestAvgSteps, evaluator`bestAvgStepsNotInf, evaluator`costsArraySet
      ensures Valid()
      ensures Extends(snapshot, plist) && old(progsEvaled) <= progsEvaled
      ensures bestAvgSteps == levelBest || Below(bestAvgSteps, levelBest)
      ensures resetSize <==> levelReset || Flagged(levelBest, bestAvgSteps, bestAvgStepsUponLastReset)
    {
      ghost var before := plist;
      ghost var best := bestAvgSteps;
      var evaluated, avgSteps, accepted, completed, bucket;
      evaluated, avgSteps, accepted, completed, bucket, halted := Consider(h);
      ExtendsTrans(snapshot, before, plist);
      FlaggedStep(levelBest, best, bestAvgSteps, bestAvgStepsUponLastReset);
    }

    /**
     * `search`: levels of growing size up to `bound`, back to size 1 after
     * a level that flagged a restart. Stops early (`halted`) when an
     * accepted program's bucket is negative. Each restart follows a
     * strictly lower best score, and a finite score is at most `Cap()`,
     * which bounds the number of restarts.
     */
    method Search() returns (halted: bool)
      requires OracleReady() && Configured()
      requires forall p :: p in grammarConstants ==> InVocabulary(p)
      modifies this, evaluator`bestAvgSteps, evaluator`bestAvgStepsNotInf, evaluator`costsArraySet
      ensures Valid()
      ensures !halted ==> currentSize >= bound
      ensures Extends(InitialBuckets(grammarConstants), plist)
      ensures bestProgram.Some? <==> bestAvgSteps.Finite?
    {
      Begin();
      halted := false;
      while currentSize < bound
        invariant Valid() && !resetSize
        invariant Extends(InitialBuckets(grammarConstants), plist)
        decreases Rank(bestAvgSteps, Cap()), bound - currentSize
      {
        ghost var before := plist;
        halted := RunLevel();
        ExtendsTrans(InitialBuckets(grammarConstants), before, plist);
        if halted {
          return;
        }
      }
    }

    /** The state `search` starts from (search.py:26-38): no best score, the constants as bucket 1, nothing scored. */
    method Begin()
      requires OracleReady() && Configured()
      requires forall p :: p in grammarConstants ==> InVocabulary(p)
      modifies this`bestAvgSteps, this`bestAvgStepsUponLastReset, this`bestProgram, this`plist,
               this`progsEvaled, this`scored, this`currentSize, this`resetSize
      ensures Valid() && !resetSize && currentSize == 0
      ensures plist == InitialBuckets(grammarConstants) && progsEvaled == {}
      ensures bestAvgSteps == Inf && bestAvgStepsUponLastReset == Inf && bestProgram == None
    {
      bestAvgSteps := Inf;
      bestAvgStepsUponLastReset := Inf;
      bestProgram := None;
      plist := InitialBuckets(grammarConstants);
      progsEvaled := {};
      scored := [];
      currentSize := 0;
      resetSize := false;
    }

    /**
     * One turn of the loop in `search` (search.py:40-130): the next size,
     * its level, and a restart from size 0 when the level flagged one,
     * which then follows a strictly better best score.
     */
    method RunLevel() returns (halted: bool)
      requires Valid() && !resetSize && currentSize < bound
      modifies this`plist, this`progsEvaled, this`scored, this`bestAvgSteps, this`bestProgram, this`resetSize,
               this`validSizesList, this`totalNewPrograms, this`currentSize, this`bestAvgStepsUponLastReset,
               evaluator`bestAvgSteps, evaluator`bestAvgStepsNotInf, evaluator`costsArraySet
      ensures Valid() && (!halted ==> !resetSize) && Extends(old(plist), plist)
      ensures var restarted := !halted && Flagged(old(bestAvgSteps), bestAvgSteps, old(bestAvgStepsUponLastReset));
              currentSize == (if restarted then 0 else old(currentSize) + 1)
              && bestAvgStepsUponLastReset == (if restarted then bestAvgSteps else old(bestAvgStepsUponLastReset))
      ensures bestAvgSteps == old(bestAvgSteps) || Below(bestAvgSteps, old(bestAvgSteps))
      ensures !halted && currentSize == 0 ==> Rank(bestAvgSteps, Cap()) < Rank(old(bestAvgSteps), Cap())
    {
      currentSize := currentSize + 1;
      halted := ExpandLevel();
      if !halted && resetSize {
        BelowRank(bestAvgSteps, old(bestAvgSteps), Cap());
        resetSize := false;
        currentSize := 0;
        bestAvgStepsUponLastReset := bestAvgSteps;
      }
    }
  }

  /** The innermost loop of `generate_new_programs`: `p` against each program of `ps`. */
  method AgainstOf(p: Program, ps: seq<Program>) returns (programs: seq<Program>)
    ensures programs == Against(p, ps)
  {
    programs := [];
    for b := 0 to |ps|
      invariant programs == Against(p, ps[..b])
    {
      programs := programs + Combinations(p, ps[b]);
      assert ps[..b + 1][..b] == ps[..b];
    }
    assert ps[..|ps|] == ps;
  }

  /** The two inner loops of `generate_new_programs`: each program of `ps1` against each of `ps2`. */
  method ProductsOf(ps1: seq<Program>, ps2: seq<Program>) returns (programs: seq<Program>)
    ensures programs == Products(ps1, ps2)
  {
    programs := [];
    for a := 0 to |ps1|
      invariant programs == Products(ps1[..a], ps2)
    {
      var row := AgainstOf(ps1[a], ps2);
      programs := programs + row;
      assert ps1[..a + 1][..a] == ps1[..a];
    }
    assert ps1[..|ps1|] == ps1;
  }

  /**
   * The two loops of `get_valid_program_sizes` over the keys of
   * `progDict` in their order, and the count of the candidates.
   */
  method ValidProgramSizes(progDict: Buckets, current: nat) returns (pairs: seq<(nat, nat)>, total: nat)
    requires Keyed(progDict)
    ensures pairs == SizePairs(progDict.sizes, |progDict.sizes|, current)
    ensures Listed(pairs, progDict.table)
    ensures total == CandidateCount(pairs, progDict.table)
  {
    var keys := progDict.sizes;
    var seen: set<(nat, nat)> := {};
    pairs := [];
    for i := 0 to |keys|
      invariant pairs == SizePairs(keys, i, current)
      invariant forall q :: q in seen <==> q in pairs
    {
      ghost var outer := pairs;
      for j := 0 to |keys|
        invariant pairs == ScanRow(keys[i], keys, j, current, outer)
        invariant forall q :: q in seen <==> q in pairs
      {
        if keys[i] + keys[j] + 1 == current {
          var q := Ordered(keys[i], keys[j]);
          if q !in seen {
            seen := seen + {q};
            pairs := pairs + [q];
          }
        }
      }
    }
    ValidSizesExact(keys, current);
    total := 0;
    for k := 0 to |pairs|
      invariant total == CandidateCount(pairs[..k], progDict.table)
    {
      var q := pairs[k];
      total := total + |progDict.table[q.0]| * |progDict.table[q.1]| * 11;
      assert pairs[..k + 1][..k] == pairs[..k];
    }
    assert pairs[..|pairs|] == pairs;
  }
}
