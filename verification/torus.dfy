/**
 The wrap-around Moore neighbourhood of a cell on an `m x n` torus.

 Rows wrap modulo `m` and columns modulo `n`. The neighbour list is built the
 way the simulator builds it: the three candidate rows (previous, own, next)
 times the three candidate columns, in row-major order, with the cell itself
 filtered out. On a torus narrower than three cells the candidates repeat, so
 the list may then contain duplicates; the lemmas below pin down the list on
 tori of at least 3 x 3 cells.
 */
module Torus {

  /** A cell coordinate `(row, column)`. */
  type Pos = (int, int)

  predicate InRange(m: int, n: int, p: Pos) {
    0 <= p.0 < m && 0 <= p.1 < n
  }

  /** One step back or forward from an index in `0 .. k-1`, wrapping at the
      edges: the remainder of `i` modulo `k` for `i` in `-1 .. k`. */
  function Wrap(i: int, k: int): (r: int)
    requires k > 0 && -1 <= i <= k
    ensures 0 <= r < k
    ensures 0 <= i < k ==> r == i
  {
    if i < 0 then i + k else if i >= k then i - k else i
  }

  /** The wrap is the floored remainder the simulator computes. For a
      positive modulus the floored remainder and Dafny's Euclidean `%`
      agree, so `Wrap(-1, k) == k - 1` and `Wrap(k, k) == 0`. */
  lemma WrapIsRemainder(i: int, k: int)
    requires k > 0 && -1 <= i <= k
    ensures Wrap(i, k) == i % k
  {
    if i < 0 {
      assert i + k == i % k by {
        assert i == -1 * k + (i + k);
      }
    } else if i >= k {
      assert i - k == i % k by {
        assert i == 1 * k + (i - k);
      }
    }
  }

  /** `a` is one of the three candidate indices around `b`: one back, `b`
      itself, or one forward, wrapping modulo `k`. */
  predicate Near(a: int, b: int, k: int)
    requires 0 <= b < k
  {
    a == Wrap(b - 1, k) || a == b || a == Wrap(b + 1, k)
  }

  /** Nearness of in-range indices is symmetric. */
  lemma NearSymmetric(a: int, b: int, k: int)
    requires 0 <= a < k && 0 <= b < k
    ensures Near(a, b, k) <==> Near(b, a, k)
  {
  }

  /** The list with every occurrence of `p` removed, order kept. */
  function Without(s: seq<Pos>, p: Pos): (r: seq<Pos>)
    ensures |r| <= |s|
    ensures p in s ==> |r| < |s|
    ensures forall q :: q in r <==> q in s && q != p
  {
    if |s| == 0 then []
    else (if s[0] != p then [s[0]] else []) + Without(s[1..], p)
  }

  /** Filtering a list that does not contain `p` leaves it as it is. */
  lemma {:induction false} WithoutAbsent(s: seq<Pos>, p: Pos)
    requires p !in s
    ensures Without(s, p) == s
    decreases |s|
  {
    if |s| > 0 {
      WithoutAbsent(s[1..], p);
    }
  }

  /** The neighbours of `p`: rows `[prev, row, next]` times columns
      `[prev, column, next]`, row-major, every candidate equal to `p` left out.
      Own row and column are used as given, not wrapped. */
  function Neighbors(m: int, n: int, p: Pos): (ns: seq<Pos>)
    requires InRange(m, n, p)
    ensures |ns| <= 8
    ensures forall q :: q in ns <==> q != p && Near(q.0, p.0, m) && Near(q.1, p.1, n)
    ensures forall q :: q in ns ==> InRange(m, n, q)
  {
    Without(Candidates(m, n, p), p)
  }

  /** The nine row-major candidates around `p`, `p` itself in the middle. */
  function Candidates(m: int, n: int, p: Pos): (cs: seq<Pos>)
    requires InRange(m, n, p)
    ensures |cs| == 9 && cs[4] == p
    ensures forall q :: q in cs <==> Near(q.0, p.0, m) && Near(q.1, p.1, n)
  {
    var (row, column) := p;
    var prevRow, nextRow := Wrap(row - 1, m), Wrap(row + 1, m);
    var prevColumn, nextColumn := Wrap(column - 1, n), Wrap(column + 1, n);
    [(prevRow, prevColumn), (prevRow, column), (prevRow, nextColumn),
     (row, prevColumn), (row, column), (row, nextColumn),
     (nextRow, prevColumn), (nextRow, column), (nextRow, nextColumn)]
  }

  /** A cell and its neighbours: the block a live cell adds to a check list. */
  function Closed(m: int, n: int, p: Pos): (ns: seq<Pos>)
    requires InRange(m, n, p)
    ensures forall q :: q in ns <==> q == p || q in Neighbors(m, n, p)
  {
    [p] + Neighbors(m, n, p)
  }

  predicate Distinct(s: seq<Pos>) {
    forall i, j :: 0 <= i < j < |s| ==> s[i] != s[j]
  }

  /** Removing an element from a list without repetitions keeps it without
      repetitions and, when the element occurs, shortens it by exactly one. */
  lemma {:induction false} WithoutDistinct(s: seq<Pos>, p: Pos)
    requires Distinct(s)
    ensures Distinct(Without(s, p))
    ensures p in s ==> |Without(s, p)| == |s| - 1
    decreases |s|
  {
    if |s| > 0 {
      var rest := Without(s[1..], p);
      WithoutDistinct(s[1..], p);
      assert s[0] !in s[1..] by {
        forall k | 0 <= k < |s[1..]|
          ensures s[1..][k] != s[0]
        {
          assert s[1..][k] == s[k + 1];
        }
      }
      if p != s[0] {
        assert Without(s, p) == [s[0]] + rest;
        assert s[0] !in rest;
      } else {
        assert p !in s[1..];
        WithoutAbsent(s[1..], p);
      }
    }
  }

  /** The nine cells of a 3 x 3 block with distinct rows and distinct
      columns are distinct. */
  lemma BlockDistinct(a: int, b: int, c: int, x: int, y: int, z: int)
    requires a != b && b != c && a != c && x != y && y != z && x != z
    ensures Distinct([(a, x), (a, y), (a, z), (b, x), (b, y), (b, z), (c, x), (c, y), (c, z)])
  {
    var s := [(a, x), (a, y), (a, z), (b, x), (b, y), (b, z), (c, x), (c, y), (c, z)];
    forall i, j | 0 <= i < j < |s|
      ensures s[i] != s[j]
    {
    }
  }

  /** On a torus of at least 3 x 3 cells an in-range cell has exactly eight
      distinct neighbours, all in range and none equal to the cell. */
  lemma NeighborsOnLargeTorus(m: int, n: int, p: Pos)
    requires m >= 3 && n >= 3 && InRange(m, n, p)
    ensures |Neighbors(m, n, p)| == 8
    ensures Distinct(Neighbors(m, n, p))
    ensures forall q :: q in Neighbors(m, n, p) ==> InRange(m, n, q) && q != p
  {
    var row, column := p.0, p.1;
    var pr, nr := Wrap(row - 1, m), Wrap(row + 1, m);
    var pc, nc := Wrap(column - 1, n), Wrap(column + 1, n);
    BlockDistinct(pr, row, nr, pc, column, nc);
    var cs := Candidates(m, n, p);
    assert cs == [(pr, pc), (pr, column), (pr, nc), (row, pc), (row, column), (row, nc),
                  (nr, pc), (nr, column), (nr, nc)];
    WithoutDistinct(cs, p);
  }

  /** Neighbourhood on the torus is symmetric: `q` is a neighbour of `p`
      exactly when `p` is a neighbour of `q`. */
  lemma NeighborSymmetric(m: int, n: int, p: Pos, q: Pos)
    requires InRange(m, n, p) && InRange(m, n, q)
    ensures q in Neighbors(m, n, p) <==> p in Neighbors(m, n, q)
  {
    NearSymmetric(p.0, q.0, m);
    NearSymmetric(p.1, q.1, n);
  }

  /** The corner `(0, 0)` sees the three other corners across the edges. */
  lemma CornerWraps(m: int, n: int)
    requires m >= 2 && n >= 2
    ensures (m - 1, n - 1) in Neighbors(m, n, (0, 0))
    ensures (m - 1, 0) in Neighbors(m, n, (0, 0))
    ensures (0, n - 1) in Neighbors(m, n, (0, 0))
  {
  }
}
