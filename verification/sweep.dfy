/**
 The step as the simulator performs it: one pass over the check list in
 whatever order the set yields its members, reading only the old grid and the
 old check list, writing survivors and newborns into a fresh all-dead grid and
 collecting each of them with its neighbours into the next check list.

 Because every read is from the old state, the order of the pass does not
 matter; the method below picks members in an arbitrary order and is proved
 to compute exactly the sparse step of the engine.
 */
module Sweep {
  import opened Torus
  import opened RuleText
  import opened Engine

  /** Before any cell is examined nothing is alive next. */
  lemma NextLiveOfNothing(g: Grid, m: int, n: int, rule: Rule)
    requires Shaped(g, m, n)
    ensures NextLive(g, m, n, rule, {}) == {}
  {
  }

  /** Examining one more cell `p` adds it to the cells alive next exactly when
      the rule makes it alive. */
  lemma NextLiveOneMore(g: Grid, m: int, n: int, rule: Rule, done: set<Pos>, p: Pos)
    requires Shaped(g, m, n) && Within(done, m, n) && InRange(m, n, p)
    ensures NextLive(g, m, n, rule, done + {p}) ==
              NextLive(g, m, n, rule, done) + (if NextState(g, m, n, rule, p) == 1 then {p} else {})
  {
  }

  /** The grid of no live cells is the all-dead grid. */
  lemma GridOfNothing(m: int, n: int)
    requires m > 0 && n > 0
    ensures GridOf(m, n, {}) == Dead(m, n)
  {
    var a, b := GridOf(m, n, {}), Dead(m, n);
    forall r | 0 <= r < m
      ensures a[r] == b[r]
    {
    }
  }

  /** Adding a cell to the live set sets exactly that cell of the grid. */
  lemma GridOfOneMore(m: int, n: int, alive: set<Pos>, p: Pos)
    requires m > 0 && n > 0 && InRange(m, n, p)
    ensures var before := GridOf(m, n, alive);
            GridOf(m, n, alive + {p}) == before[p.0 := before[p.0][p.1 := 1]]
  {
    var before, after := GridOf(m, n, alive), GridOf(m, n, alive + {p});
    var expected := before[p.0 := before[p.0][p.1 := 1]];
    forall r | 0 <= r < m
      ensures after[r] == expected[r]
    {
    }
  }

  /** A cell on the check list of a larger live set comes from the smaller
      set or from the added cell's block. */
  lemma CheckListOfGrowsBy(m: int, n: int, alive: set<Pos>, p: Pos, q: Pos)
    requires Within(alive, m, n) && InRange(m, n, p)
    requires q in CheckListOf(m, n, alive + {p})
    ensures q in CheckListOf(m, n, alive) || q == p || q in Neighbors(m, n, p)
  {
    var a :| a in alive + {p} && q in Closed(m, n, a);
    if a != p {
      assert q in CheckListOf(m, n, alive);
    }
  }

  /** Growing the live set keeps every cell already on its check list. */
  lemma CheckListOfKeeps(m: int, n: int, alive: set<Pos>, p: Pos, q: Pos)
    requires Within(alive, m, n) && InRange(m, n, p)
    requires q in CheckListOf(m, n, alive)
    ensures q in CheckListOf(m, n, alive + {p})
  {
    var a :| a in alive && q in Closed(m, n, a);
    assert a in alive + {p};
  }

  /** Growing the live set by `p` puts `p` and its neighbours on the check
      list. */
  lemma CheckListOfAdds(m: int, n: int, alive: set<Pos>, p: Pos, q: Pos)
    requires Within(alive, m, n) && InRange(m, n, p)
    requires q == p || q in Neighbors(m, n, p)
    ensures q in CheckListOf(m, n, alive + {p})
  {
    assert p in alive + {p} && q in Closed(m, n, p);
  }

  /** Membership in the check list of a live set grown by `p`. */
  lemma CheckListOfGrown(m: int, n: int, alive: set<Pos>, p: Pos, q: Pos)
    requires Within(alive, m, n) && InRange(m, n, p)
    ensures q in CheckListOf(m, n, alive + {p}) <==>
              q in CheckListOf(m, n, alive) || q == p || q in Neighbors(m, n, p)
  {
    if q in CheckListOf(m, n, alive + {p}) {
      CheckListOfGrowsBy(m, n, alive, p, q);
    }
    if q in CheckListOf(m, n, alive) {
      CheckListOfKeeps(m, n, alive, p, q);
    }
    if q == p || q in Neighbors(m, n, p) {
      CheckListOfAdds(m, n, alive, p, q);
    }
  }

  /** Set extensionality for a union with a cell and the members of a list. */
  lemma UnionWithList(a: set<Pos>, b: set<Pos>, ns: seq<Pos>, p: Pos)
    requires forall q :: q in a <==> q in b || q == p || q in ns
    ensures a == b + {p} + (set q | q in ns)
  {
  }

  /** Adding a cell to the live set adds it and its neighbours to the check
      list built from that set, and nothing else. */
  lemma CheckListOfOneMore(m: int, n: int, alive: set<Pos>, p: Pos)
    requires Within(alive, m, n) && InRange(m, n, p)
    ensures CheckListOf(m, n, alive + {p}) ==
              CheckListOf(m, n, alive) + {p} + (set q | q in Neighbors(m, n, p))
  {
    forall q
      ensures q in CheckListOf(m, n, alive + {p}) <==>
                q in CheckListOf(m, n, alive) || q == p || q in Neighbors(m, n, p)
    {
      CheckListOfGrown(m, n, alive, p, q);
    }
    UnionWithList(CheckListOf(m, n, alive + {p}), CheckListOf(m, n, alive), Neighbors(m, n, p), p);
  }

  /** One cell of the pass: if the rule makes `p` alive, the grid gains `p`
      and the check list gains `p` and its neighbours; otherwise both stay. */
  lemma OneMoreCell(g: Grid, m: int, n: int, rule: Rule, done: set<Pos>, p: Pos)
    requires Shaped(g, m, n) && Within(done, m, n) && InRange(m, n, p)
    ensures var alive := NextLive(g, m, n, rule, done);
            var alive' := NextLive(g, m, n, rule, done + {p});
            var grid := GridOf(m, n, alive);
            if NextState(g, m, n, rule, p) == 1 then
              alive' == alive + {p} &&
              GridOf(m, n, alive') == grid[p.0 := grid[p.0][p.1 := 1]] &&
              CheckListOf(m, n, alive') ==
                CheckListOf(m, n, alive) + {p} + (set q | q in Neighbors(m, n, p))
            else
              alive' == alive
  {
    var alive := NextLive(g, m, n, rule, done);
    NextLiveOneMore(g, m, n, rule, done, p);
    if NextState(g, m, n, rule, p) == 1 {
      GridOfOneMore(m, n, alive, p);
      CheckListOfOneMore(m, n, alive, p);
    }
  }

  /** The body of the pass for one cell `p` of the check list: count its live
      neighbours in the old grid and, when the rule keeps it alive or brings
      it to life, mark it in the next grid and put it and its neighbours on
      the next check list. */
  method VisitCell(g: Grid, m: int, n: int, rule: Rule, done: set<Pos>, p: Pos,
                   temp: Grid, newCheckList: set<Pos>)
    returns (temp': Grid, newCheckList': set<Pos>)
    requires Shaped(g, m, n) && Within(done, m, n) && InRange(m, n, p)
    requires temp == GridOf(m, n, NextLive(g, m, n, rule, done))
    requires newCheckList == CheckListOf(m, n, NextLive(g, m, n, rule, done))
    ensures temp' == GridOf(m, n, NextLive(g, m, n, rule, done + {p}))
    ensures newCheckList' == CheckListOf(m, n, NextLive(g, m, n, rule, done + {p}))
  {
    var row, column := p.0, p.1;
    var neighbors := Neighbors(m, n, p);
    var num := LivingNeighborCount(g, neighbors);
    var state := g[row][column];
    OneMoreCell(g, m, n, rule, done, p);
    assert NextState(g, m, n, rule, p) == 1 <==>
             (state == 1 && num in rule.survive) || (state == 0 && num in rule.birth);
    temp', newCheckList' := temp, newCheckList;
    if state == 1 && num in rule.survive {
      temp' := temp[row := temp[row][column := 1]];
      newCheckList' := newCheckList + {p} + (set q | q in neighbors);
    } else if state == 0 && num in rule.birth {
      temp' := temp[row := temp[row][column := 1]];
      newCheckList' := newCheckList + {p} + (set q | q in neighbors);
    }
  }

  /** The pass over the check list: every member is examined once, in an
      arbitrary order, and the cells the rule keeps or brings to life end up
      in the grid and, with their neighbours, on the check list. */
  method SweepCells(g: Grid, m: int, n: int, rule: Rule, checkList: set<Pos>)
    returns (temp: Grid, newCheckList: set<Pos>)
    requires Shaped(g, m, n) && Within(checkList, m, n)
    ensures temp == GridOf(m, n, NextLive(g, m, n, rule, checkList))
    ensures newCheckList == CheckListOf(m, n, NextLive(g, m, n, rule, checkList))
  {
    temp := Dead(m, n);
    newCheckList := {};
    var todo := checkList;
    var done: set<Pos> := {};
    NextLiveOfNothing(g, m, n, rule);
    GridOfNothing(m, n);
    while todo != {}
      invariant todo <= checkList && done == checkList - todo
      invariant temp == GridOf(m, n, NextLive(g, m, n, rule, done))
      invariant newCheckList == CheckListOf(m, n, NextLive(g, m, n, rule, done))
      decreases |todo|
    {
      var p :| p in todo;
      assert InRange(m, n, p);
      temp, newCheckList := VisitCell(g, m, n, rule, done, p, temp, newCheckList);
      todo := todo - {p};
      done := done + {p};
    }
    assert done == checkList;
  }

  /** One step: the pass over the check list yields the next grid and the
      next check list, which are those of the sparse step of the engine. */
  method UpdateGrid(g: Grid, m: int, n: int, rule: Rule, checkList: set<Pos>)
    returns (next: Grid, nextCheckList: set<Pos>)
    requires Shaped(g, m, n) && Within(checkList, m, n)
    ensures next == StepGrid(g, m, n, rule, checkList)
    ensures nextCheckList == StepCheckList(g, m, n, rule, checkList)
  {
    next, nextCheckList := SweepCells(g, m, n, rule, checkList);
  }
}
