/**
 The sparse update engine of the simulator.

 The world is an `m x n` grid of cells, each dead (0) or alive (1), on a torus.
 Besides the grid the engine keeps a check list: the set of cells worth
 examining in the next step. A step examines only the cells on the check list,
 applies the birth/survive rule to each from the old grid, writes the
 survivors and newborns into an all-dead grid, and collects every cell that is
 alive next together with its neighbours into the next check list. Cells off
 the check list are dead in the next grid.

 The reference against which the sparse step is judged is the dense step: the
 same rule applied to every cell of the grid.
 */
module Engine {
  import opened Torus
  import opened RuleText

  /** A cell state: 0 for dead, 1 for alive. */
  type Bit = x: int | 0 <= x <= 1

  /** A grid, indexed `[row][column]`. */
  type Grid = seq<seq<Bit>>

  /** `g` has `m` rows of `n` cells each, and at least one of each. */
  predicate Shaped(g: Grid, m: int, n: int) {
    m > 0 && n > 0 && |g| == m && forall r :: 0 <= r < m ==> |g[r]| == n
  }

  /** `p` indexes a live cell of `g`. */
  predicate Live(g: Grid, p: Pos) {
    0 <= p.0 < |g| && 0 <= p.1 < |g[p.0]| && g[p.0][p.1] == 1
  }

  /** Every position in `ps` indexes a cell of `g`. */
  predicate Indexes(g: Grid, ps: seq<Pos>) {
    forall i :: 0 <= i < |ps| ==> 0 <= ps[i].0 < |g| && 0 <= ps[i].1 < |g[ps[i].0]|
  }

  /** The sum of the cell values at the positions in `ps`, front to back.
      A position listed twice is counted twice. */
  function LivingNeighborCount(g: Grid, ps: seq<Pos>): (count: int)
    requires Indexes(g, ps)
    ensures 0 <= count <= |ps|
    ensures count == 0 <==> forall i :: 0 <= i < |ps| ==> !Live(g, ps[i])
  {
    if |ps| == 0 then 0
    else g[ps[0].0][ps[0].1] + LivingNeighborCount(g, ps[1..])
  }

  /** The live cells among `ps`, as a set. */
  function LiveAmong(g: Grid, ps: seq<Pos>): set<Pos> {
    set q | q in ps && Live(g, q)
  }

  /** On a list without repetitions the count is the number of live cells
      listed. */
  lemma {:induction false} CountOfDistinct(g: Grid, ps: seq<Pos>)
    requires Indexes(g, ps) && Distinct(ps)
    ensures LivingNeighborCount(g, ps) == |LiveAmong(g, ps)|
    decreases |ps|
  {
    if |ps| > 0 {
      var rest := ps[1..];
      assert Indexes(g, rest) by {
        forall i | 0 <= i < |rest|
          ensures 0 <= rest[i].0 < |g| && 0 <= rest[i].1 < |g[rest[i].0]|
        {
          assert rest[i] == ps[i + 1];
        }
      }
      assert Distinct(rest) by {
        forall i, j | 0 <= i < j < |rest|
          ensures rest[i] != rest[j]
        {
          assert rest[i] == ps[i + 1] && rest[j] == ps[j + 1];
        }
      }
      CountOfDistinct(g, rest);
      assert ps[0] !in rest by {
        forall k | 0 <= k < |rest|
          ensures rest[k] != ps[0]
        {
          assert rest[k] == ps[k + 1];
        }
      }
      var head: set<Pos> := if Live(g, ps[0]) then {ps[0]} else {};
      SetOfCons(g, ps);
      assert head !! LiveAmong(g, rest);
      assert LivingNeighborCount(g, ps) == g[ps[0].0][ps[0].1] + LivingNeighborCount(g, rest);
    }
  }

  lemma SetOfCons(g: Grid, ps: seq<Pos>)
    requires |ps| > 0
    ensures LiveAmong(g, ps) == (if Live(g, ps[0]) then {ps[0]} else {}) + LiveAmong(g, ps[1..])
  {
    forall q | q in ps
      ensures q == ps[0] || q in ps[1..]
    {
      var i :| 0 <= i < |ps| && ps[i] == q;
      if i > 0 {
        assert ps[1..][i - 1] == q;
      }
    }
  }

  /** The live neighbours of `p`, as a set. */
  function LiveNeighbors(g: Grid, m: int, n: int, p: Pos): set<Pos>
    requires InRange(m, n, p)
  {
    LiveAmong(g, Neighbors(m, n, p))
  }

  /** On a torus of at least 3 x 3 cells the neighbour count of a cell is
      the number of its live neighbours, between 0 and 8. */
  lemma NeighborCountIsLiveNeighbors(g: Grid, m: int, n: int, p: Pos)
    requires Shaped(g, m, n) && m >= 3 && n >= 3 && InRange(m, n, p)
    ensures LivingNeighborCount(g, Neighbors(m, n, p)) == |LiveNeighbors(g, m, n, p)|
    ensures 0 <= |LiveNeighbors(g, m, n, p)| <= 8
  {
    NeighborsOnLargeTorus(m, n, p);
    CountOfDistinct(g, Neighbors(m, n, p));
  }

  /** The neighbour count of an in-range cell. */
  function Count(g: Grid, m: int, n: int, p: Pos): (count: int)
    requires Shaped(g, m, n) && InRange(m, n, p)
    ensures 0 <= count <= 8
  {
    LivingNeighborCount(g, Neighbors(m, n, p))
  }

  /** A cell with no live neighbour has count 0. */
  lemma QuietCount(g: Grid, m: int, n: int, p: Pos)
    requires Shaped(g, m, n) && InRange(m, n, p)
    requires forall q :: q in Neighbors(m, n, p) ==> !Live(g, q)
    ensures Count(g, m, n, p) == 0
  {
    var ns := Neighbors(m, n, p);
    assert forall i :: 0 <= i < |ns| ==> ns[i] in ns;
  }

  /** The birth/survive rule applied to one cell, reading the old grid only:
      a live cell stays alive when its count is a survive count, a dead cell
      comes alive when its count is a birth count. On a torus of at least
      3 x 3 cells that count is the number of distinct live neighbours. */
  function NextState(g: Grid, m: int, n: int, rule: Rule, p: Pos): (s: Bit)
    requires Shaped(g, m, n) && InRange(m, n, p)
    ensures m >= 3 && n >= 3 ==>
              var k := |LiveNeighbors(g, m, n, p)|;
              (s == 1 <==> (Live(g, p) && k in rule.survive) || (!Live(g, p) && k in rule.birth))
  {
    var num := Count(g, m, n, p);
    var state := g[p.0][p.1];
    var s: Bit := if state == 1 && num in rule.survive then 1
                  else if state == 0 && num in rule.birth then 1
                  else 0;
    if m >= 3 && n >= 3 then NeighborCountIsLiveNeighbors(g, m, n, p); s else s
  }

  /** The reference step: the rule applied to every cell of the grid. */
  function DenseStep(g: Grid, m: int, n: int, rule: Rule): (g': Grid)
    requires Shaped(g, m, n)
    ensures Shaped(g', m, n)
    ensures forall r, c :: 0 <= r < m && 0 <= c < n ==> g'[r][c] == NextState(g, m, n, rule, (r, c))
  {
    seq(m, r requires 0 <= r < m =>
      seq(n, c requires 0 <= c < n => NextState(g, m, n, rule, (r, c))))
  }

  /** Every member of `cl` is a cell of the `m x n` grid. */
  predicate Within(cl: set<Pos>, m: int, n: int) {
    forall p :: p in cl ==> InRange(m, n, p)
  }

  /** `q` is live or has a live neighbour: the cells whose state a step can
      leave alive when no birth count is 0. */
  predicate Active(g: Grid, m: int, n: int, q: Pos)
    requires InRange(m, n, q)
  {
    Live(g, q) || exists p :: p in Neighbors(m, n, q) && Live(g, p)
  }

  /** `cl` holds every live cell and every cell with a live neighbour. */
  ghost predicate Covers(g: Grid, m: int, n: int, cl: set<Pos>)
    requires m > 0 && n > 0
  {
    forall q {:trigger Active(g, m, n, q)} :: InRange(m, n, q) && Active(g, m, n, q) ==> q in cl
  }

  /** All cells of the `m x n` grid. */
  function Cells(m: int, n: int): (cs: set<Pos>)
    ensures forall p :: p in cs <==> InRange(m, n, p)
  {
    set r, c | 0 <= r < m && 0 <= c < n :: (r, c)
  }

  /** The live cells of `g`. */
  function LiveCells(g: Grid, m: int, n: int): (live: set<Pos>)
    ensures forall p :: p in live <==> InRange(m, n, p) && Live(g, p)
  {
    set p | p in Cells(m, n) && Live(g, p)
  }

  /** A check list assembled from the cells `alive`: each of them together
      with its neighbours. */
  function CheckListOf(m: int, n: int, alive: set<Pos>): (cl: set<Pos>)
    requires Within(alive, m, n)
    ensures Within(cl, m, n)
  {
    set p, q | p in alive && q in Closed(m, n, p) :: q
  }

  /** The check list built from scratch: every live cell together with its
      neighbours. */
  function InitialCheckList(g: Grid, m: int, n: int): (cl: set<Pos>)
    requires Shaped(g, m, n)
    ensures Within(cl, m, n)
  {
    CheckListOf(m, n, LiveCells(g, m, n))
  }

  /** A cell is on the initial check list exactly when it is live or has a
      live neighbour; the second half rests on the symmetry of the
      neighbourhood. */
  lemma InitialCheckListExact(g: Grid, m: int, n: int, q: Pos)
    requires Shaped(g, m, n)
    ensures q in InitialCheckList(g, m, n) <==> InRange(m, n, q) && Active(g, m, n, q)
  {
    var cl := InitialCheckList(g, m, n);
    if q in cl {
      var p :| p in LiveCells(g, m, n) && q in Closed(m, n, p);
      if q != p {
        NeighborSymmetric(m, n, p, q);
      }
    }
    if InRange(m, n, q) && Active(g, m, n, q) {
      if Live(g, q) {
        assert q in LiveCells(g, m, n) && q in Closed(m, n, q);
      } else {
        var p :| p in Neighbors(m, n, q) && Live(g, p);
        NeighborSymmetric(m, n, p, q);
        assert p in LiveCells(g, m, n) && q in Closed(m, n, p);
      }
    }
  }

  /** The initial check list covers the grid it was built from. */
  lemma InitialCheckListCovers(g: Grid, m: int, n: int)
    requires Shaped(g, m, n)
    ensures Covers(g, m, n, InitialCheckList(g, m, n))
  {
    forall q | InRange(m, n, q) && Active(g, m, n, q)
      ensures q in InitialCheckList(g, m, n)
    {
      InitialCheckListExact(g, m, n, q);
    }
  }

  /** The cells a sparse step leaves alive: the members of the check list
      the rule keeps or brings to life. */
  function NextLive(g: Grid, m: int, n: int, rule: Rule, cl: set<Pos>): (alive: set<Pos>)
    requires Shaped(g, m, n) && Within(cl, m, n)
    ensures alive <= cl
  {
    set p | p in cl && NextState(g, m, n, rule, p) == 1
  }

  /** The grid whose live cells are exactly `alive`. */
  function GridOf(m: int, n: int, alive: set<Pos>): (g: Grid)
    requires m > 0 && n > 0
    ensures Shaped(g, m, n)
    ensures forall p :: InRange(m, n, p) ==> (Live(g, p) <==> p in alive)
  {
    seq(m, r => seq(n, c => if (r, c) in alive then 1 else 0))
  }

  /** The grid after one sparse step, written into an all-dead grid. */
  function StepGrid(g: Grid, m: int, n: int, rule: Rule, cl: set<Pos>): (g': Grid)
    requires Shaped(g, m, n) && Within(cl, m, n)
    ensures Shaped(g', m, n)
  {
    GridOf(m, n, NextLive(g, m, n, rule, cl))
  }

  /** What one sparse step does to each cell: a cell on the check list is
      alive next exactly when it is alive with a survive count or dead with a
      birth count, counts taken from the old grid; a cell off the check list
      is dead next. */
  lemma StepGridCells(g: Grid, m: int, n: int, rule: Rule, cl: set<Pos>, p: Pos)
    requires Shaped(g, m, n) && Within(cl, m, n) && InRange(m, n, p)
    ensures var num := LivingNeighborCount(g, Neighbors(m, n, p));
            StepGrid(g, m, n, rule, cl)[p.0][p.1] == 1 <==>
              p in cl &&
              ((g[p.0][p.1] == 1 && num in rule.survive) || (g[p.0][p.1] == 0 && num in rule.birth))
    ensures p !in cl ==> StepGrid(g, m, n, rule, cl)[p.0][p.1] == 0
  {
    assert Live(StepGrid(g, m, n, rule, cl), p) <==> p in NextLive(g, m, n, rule, cl);
  }

  /** The check list after one sparse step: each cell that is alive next,
      together with its neighbours. */
  function StepCheckList(g: Grid, m: int, n: int, rule: Rule, cl: set<Pos>): (cl': set<Pos>)
    requires Shaped(g, m, n) && Within(cl, m, n)
    ensures Within(cl', m, n)
  {
    CheckListOf(m, n, NextLive(g, m, n, rule, cl))
  }

  /** The next check list is exactly the one built from scratch on the next
      grid: the step keeps the check list in step with the grid. */
  lemma StepCheckListIsInitial(g: Grid, m: int, n: int, rule: Rule, cl: set<Pos>)
    requires Shaped(g, m, n) && Within(cl, m, n)
    ensures StepCheckList(g, m, n, rule, cl) == InitialCheckList(StepGrid(g, m, n, rule, cl), m, n)
  {
    var alive := NextLive(g, m, n, rule, cl);
    assert LiveCells(GridOf(m, n, alive), m, n) == alive;
  }

  /** A cell off a covering check list is dead with no live neighbour, so
      its count is 0. */
  lemma OffCheckListIsQuiet(g: Grid, m: int, n: int, cl: set<Pos>, q: Pos)
    requires Shaped(g, m, n) && Covers(g, m, n, cl) && InRange(m, n, q) && q !in cl
    ensures g[q.0][q.1] == 0 && Count(g, m, n, q) == 0
  {
    assert !Active(g, m, n, q);
    QuietCount(g, m, n, q);
  }

  /** Sparse/dense agreement: when no birth count is 0 and the check list
      covers every live cell and every cell with a live neighbour, the sparse
      step computes the same grid as the rule applied everywhere. */
  lemma SparseMatchesDense(g: Grid, m: int, n: int, rule: Rule, cl: set<Pos>)
    requires Shaped(g, m, n) && Within(cl, m, n)
    requires 0 !in rule.birth && Covers(g, m, n, cl)
    ensures StepGrid(g, m, n, rule, cl) == DenseStep(g, m, n, rule)
  {
    var sparse, dense := StepGrid(g, m, n, rule, cl), DenseStep(g, m, n, rule);
    forall r | 0 <= r < m
      ensures sparse[r] == dense[r]
    {
      forall c | 0 <= c < n
        ensures sparse[r][c] == dense[r][c]
      {
        if (r, c) !in cl {
          OffCheckListIsQuiet(g, m, n, cl, (r, c));
        }
      }
    }
  }

  /** A live cell with no live neighbour is still on a covering check list,
      so it survives when 0 is a survive count. */
  lemma IsolatedCellSurvives(g: Grid, m: int, n: int, rule: Rule, cl: set<Pos>, p: Pos)
    requires Shaped(g, m, n) && Within(cl, m, n) && Covers(g, m, n, cl)
    requires InRange(m, n, p) && Live(g, p)
    requires forall q :: q in Neighbors(m, n, p) ==> !Live(g, q)
    requires 0 in rule.survive
    ensures StepGrid(g, m, n, rule, cl)[p.0][p.1] == 1
  {
    assert Active(g, m, n, p);
    QuietCount(g, m, n, p);
    assert NextState(g, m, n, rule, p) == 1;
  }

  /** The all-dead `m x n` grid. */
  function Dead(m: int, n: int): (g: Grid)
    requires m > 0 && n > 0
    ensures Shaped(g, m, n)
    ensures forall r, c :: 0 <= r < m && 0 <= c < n ==> g[r][c] == 0
  {
    seq(m, r => seq(n, c => 0))
  }

  /** With no birth count 0, a dead grid stays dead whatever the check list,
      and its next check list is empty. */
  lemma DeadStaysDead(m: int, n: int, rule: Rule, cl: set<Pos>)
    requires m > 0 && n > 0 && Within(cl, m, n) && 0 !in rule.birth
    ensures StepGrid(Dead(m, n), m, n, rule, cl) == Dead(m, n)
    ensures StepCheckList(Dead(m, n), m, n, rule, cl) == {}
  {
    var g := Dead(m, n);
    var g' := StepGrid(g, m, n, rule, cl);
    forall p | InRange(m, n, p)
      ensures NextState(g, m, n, rule, p) == 0
    {
      QuietCount(g, m, n, p);
    }
    forall r | 0 <= r < m
      ensures g'[r] == g[r]
    {
    }
    assert forall q :: q !in StepCheckList(g, m, n, rule, cl);
  }

  /** After a step, the next check list covers the next grid. */
  lemma StepKeepsCovering(g: Grid, m: int, n: int, rule: Rule, cl: set<Pos>)
    requires Shaped(g, m, n) && Within(cl, m, n)
    ensures Covers(StepGrid(g, m, n, rule, cl), m, n, StepCheckList(g, m, n, rule, cl))
  {
    StepCheckListIsInitial(g, m, n, rule, cl);
    InitialCheckListCovers(StepGrid(g, m, n, rule, cl), m, n);
  }

  /** `k` sparse steps from a grid and check list. */
  function SparseRun(g: Grid, m: int, n: int, rule: Rule, cl: set<Pos>, k: nat): (g': Grid)
    requires Shaped(g, m, n) && Within(cl, m, n)
    ensures Shaped(g', m, n)
    decreases k
  {
    if k == 0 then g
    else SparseRun(StepGrid(g, m, n, rule, cl), m, n, rule, StepCheckList(g, m, n, rule, cl), k - 1)
  }

  /** `k` dense steps from a grid. */
  function DenseRun(g: Grid, m: int, n: int, rule: Rule, k: nat): (g': Grid)
    requires Shaped(g, m, n)
    ensures Shaped(g', m, n)
    decreases k
  {
    if k == 0 then g else DenseRun(DenseStep(g, m, n, rule), m, n, rule, k - 1)
  }

  /** Started from a covering check list, any number of sparse steps agree
      with the same number of dense steps when no birth count is 0: each step
      hands on a check list that covers the next grid. */
  lemma {:induction false} SparseRunMatchesDense(g: Grid, m: int, n: int, rule: Rule, cl: set<Pos>, k: nat)
    requires Shaped(g, m, n) && Within(cl, m, n)
    requires 0 !in rule.birth && Covers(g, m, n, cl)
    ensures SparseRun(g, m, n, rule, cl, k) == DenseRun(g, m, n, rule, k)
    decreases k
  {
    if k > 0 {
      var g', cl' := StepGrid(g, m, n, rule, cl), StepCheckList(g, m, n, rule, cl);
      var j: nat := k - 1;
      assert SparseRun(g, m, n, rule, cl, k) == SparseRun(g', m, n, rule, cl', j);
      assert DenseRun(g, m, n, rule, k) == DenseRun(DenseStep(g, m, n, rule), m, n, rule, j);
      SparseMatchesDense(g, m, n, rule, cl);
      StepKeepsCovering(g, m, n, rule, cl);
      SparseRunMatchesDense(g', m, n, rule, cl', j);
    }
  }
}
