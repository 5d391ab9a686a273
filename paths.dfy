/** The cumulative-energy dynamic program, stated on values: E[y][x] is the
    own energy of column x in row y, and every row has w columns.  This is
    the reference the array methods of SeamCarving are proved against, and
    the place where optimality of the seam is proved. */
module Paths {

  /** Every row of E has w columns. */
  predicate IsGrid(E: seq<seq<nat>>, w: nat) {
    forall y | 0 <= y < |E| :: |E[y]| == w
  }

  /** Column c is one of x - 1, x, x + 1 and lies in a row of w columns. */
  predicate IsCandidate(w: int, x: int, c: int) {
    0 <= c < w && x - 1 <= c <= x + 1
  }

  function Min(a: nat, b: nat): nat {
    if a <= b then a else b
  }

  /** The cumulative energy of (x, y): row 0 holds its own energy, and every
      later cell adds its own energy to the least cumulative energy among its
      candidates in the row before. */
  function Cum(E: seq<seq<nat>>, w: nat, x: int, y: nat): nat
    requires IsGrid(E, w) && y < |E| && 0 <= x < w
    decreases y, 1
  {
    if y == 0 then E[0][x] else E[y][x] + MinAbove(E, w, x, y)
  }

  /** The least cumulative energy among the columns x - 1, x, x + 1 of row
      y - 1 that lie in the grid. */
  function MinAbove(E: seq<seq<nat>>, w: nat, x: int, y: nat): nat
    requires IsGrid(E, w) && 1 <= y < |E| && 0 <= x < w
    decreases y, 0
  {
    var mid := Cum(E, w, x, y - 1);
    var left := if 0 < x then Min(Cum(E, w, x - 1, y - 1), mid) else mid;
    if x + 1 < w then Min(left, Cum(E, w, x + 1, y - 1)) else left
  }

  /** The predecessor of (x, y), y >= 1: the scan of the candidates x - 1,
      x, x + 1 of row y - 1 that keeps the first one and then takes a later
      one only when its cumulative energy is strictly smaller.  It is the
      least candidate, the smallest column on ties. */
  function Pred(E: seq<seq<nat>>, w: nat, x: int, y: nat): (p: int)
    requires IsGrid(E, w) && 1 <= y < |E| && 0 <= x < w
    ensures IsCandidate(w, x, p)
    ensures forall c | IsCandidate(w, x, c) :: Cum(E, w, p, y - 1) <= Cum(E, w, c, y - 1)
    ensures forall c | IsCandidate(w, x, c) && Cum(E, w, c, y - 1) == Cum(E, w, p, y - 1) :: p <= c
  {
    var first := if 0 < x then x - 1 else x;
    var mid := if Cum(E, w, x, y - 1) < Cum(E, w, first, y - 1) then x else first;
    if x + 1 < w && Cum(E, w, x + 1, y - 1) < Cum(E, w, mid, y - 1) then x + 1 else mid
  }

  /** A cell of row y >= 1 adds its own energy to the cumulative energy of
      its predecessor. */
  lemma CumViaPred(E: seq<seq<nat>>, w: nat, x: int, y: nat)
    requires IsGrid(E, w) && 1 <= y < |E| && 0 <= x < w
    ensures Cum(E, w, x, y) == E[y][x] + Cum(E, w, Pred(E, w, x, y), y - 1)
  {
    var p := Pred(E, w, x, y);
    assert Cum(E, w, x, y) == E[y][x] + MinAbove(E, w, x, y);
    assert IsCandidate(w, x, x);
    if 0 < x { assert IsCandidate(w, x, x - 1); }
    if x + 1 < w { assert IsCandidate(w, x, x + 1); }
  }

  /** The recurrence of the vertical pass: row 0 holds its own energy, and a
      cell of row y >= 1 holds its own energy plus the minimum cumulative
      energy over its candidates in row y - 1. */
  lemma CumRecurrence(E: seq<seq<nat>>, w: nat, x: int, y: nat)
    requires IsGrid(E, w) && y < |E| && 0 <= x < w
    ensures y == 0 ==> Cum(E, w, x, y) == E[0][x]
    ensures y >= 1 ==> exists c | IsCandidate(w, x, c) :: Cum(E, w, x, y) == E[y][x] + Cum(E, w, c, y - 1)
    ensures y >= 1 ==> forall c | IsCandidate(w, x, c) :: Cum(E, w, x, y) <= E[y][x] + Cum(E, w, c, y - 1)
  {
    if y >= 1 {
      CumViaPred(E, w, x, y);
    }
  }

  /** The predecessor is determined by its contract. */
  lemma PredIsUnique(E: seq<seq<nat>>, w: nat, x: int, y: nat, q: int)
    requires IsGrid(E, w) && 1 <= y < |E| && 0 <= x < w
    requires IsCandidate(w, x, q)
    requires forall c | IsCandidate(w, x, c) :: Cum(E, w, q, y - 1) <= Cum(E, w, c, y - 1)
    requires forall c | IsCandidate(w, x, c) && Cum(E, w, c, y - 1) == Cum(E, w, q, y - 1) :: q <= c
    ensures q == Pred(E, w, x, y)
  {
    var p := Pred(E, w, x, y);
    assert Cum(E, w, p, y - 1) <= Cum(E, w, q, y - 1);
  }

  /** p holds one column per row, from row 0 down: every column lies in a
      row of w columns and each step moves at most one column sideways.
      Stated from the last row back, the order in which seams are traced. */
  predicate IsPath(w: int, p: seq<int>)
    decreases |p|
  {
    p == [] ||
    (0 <= p[|p| - 1] < w &&
     (|p| >= 2 ==> -1 <= p[|p| - 1] - p[|p| - 2] <= 1) &&
     IsPath(w, p[..|p| - 1]))
  }

  /** A path, read position by position: every entry is a column and
      consecutive entries differ by at most one. */
  lemma {:induction false} PathSteps(w: int, p: seq<int>)
    requires IsPath(w, p)
    ensures forall k | 0 <= k < |p| :: 0 <= p[k] < w
    ensures forall j, k | 0 <= j < |p| && k == j + 1 < |p| :: -1 <= p[k] - p[j] <= 1
    decreases |p|
  {
    if p != [] {
      var q := p[..|p| - 1];
      PathSteps(w, q);
      assert forall k | 0 <= k < |q| :: q[k] == p[k];
    }
  }

  /** The total own energy of the pixels on path p, p[k] being the column
      taken in row k. */
  function PathCost(E: seq<seq<nat>>, w: nat, p: seq<int>): (cost: nat)
    requires IsGrid(E, w) && IsPath(w, p) && |p| <= |E|
    ensures p != [] ==> E[|p| - 1][p[|p| - 1]] <= cost
    decreases |p|
  {
    if p == [] then 0
    else PathCost(E, w, p[..|p| - 1]) + E[|p| - 1][p[|p| - 1]]
  }

  /** Optimality, first half: no path from row 0 to (x, y) costs less than
      the cumulative energy of (x, y). */
  lemma {:induction false} CumIsLowerBound(E: seq<seq<nat>>, w: nat, p: seq<int>)
    requires IsGrid(E, w) && IsPath(w, p) && 1 <= |p| <= |E|
    ensures Cum(E, w, p[|p| - 1], |p| - 1) <= PathCost(E, w, p)
    decreases |p|
  {
    var y := |p| - 1;
    if y == 0 {
      assert PathCost(E, w, p) == PathCost(E, w, []) + E[0][p[0]];
    } else {
      var q, x, c := p[..y], p[y], p[y - 1];
      assert Cum(E, w, c, y - 1) <= PathCost(E, w, q) by {
        CumIsLowerBound(E, w, q);
        assert |q| == y && q[y - 1] == c;
      }
      assert Cum(E, w, x, y) <= E[y][x] + Cum(E, w, c, y - 1) by {
        assert IsCandidate(w, x, c);
        CumRecurrence(E, w, x, y);
      }
      assert PathCost(E, w, p) == PathCost(E, w, q) + E[y][x];
    }
  }

  /** The path that ends at (x, y) and follows the predecessors back to row 0. */
  function Backtrack(E: seq<seq<nat>>, w: nat, x: int, y: nat): (s: seq<int>)
    requires IsGrid(E, w) && y < |E| && 0 <= x < w
    ensures |s| == y + 1 && s[y] == x && IsPath(w, s)
    decreases y
  {
    if y == 0 then [x]
    else
      var q := Backtrack(E, w, Pred(E, w, x, y), y - 1);
      assert (q + [x])[..y] == q;
      q + [x]
  }

  /** Walking back from (x, y) first visits the predecessor of (x, y). */
  lemma BacktrackStep(E: seq<seq<nat>>, w: nat, x: int, y: nat)
    requires IsGrid(E, w) && 1 <= y < |E| && 0 <= x < w
    ensures Backtrack(E, w, x, y)[..y] == Backtrack(E, w, Pred(E, w, x, y), y - 1)
  {
    var q := Backtrack(E, w, Pred(E, w, x, y), y - 1);
    assert (q + [x])[..y] == q;
  }

  /** Entries 0 .. y of s are columns and step to predecessors: for every
      row k in 1 .. y, entry k - 1 is the predecessor of entry k. */
  ghost predicate StepsToPreds(E: seq<seq<nat>>, w: nat, s: seq<int>, y: nat)
    requires IsGrid(E, w) && y < |E| && y < |s|
    decreases y
  {
    0 <= s[y] < w &&
    (y == 0 || (s[y - 1] == Pred(E, w, s[y], y) && StepsToPreds(E, w, s, y - 1)))
  }

  /** StepsToPreds(E, w, s, y) depends on entries 0 .. y of s only. */
  lemma {:induction false} StepsToPredsOfPrefix(E: seq<seq<nat>>, w: nat, s: seq<int>, t: seq<int>, y: nat)
    requires IsGrid(E, w) && y < |E| && y < |s| && y < |t|
    requires s[..y + 1] == t[..y + 1]
    requires StepsToPreds(E, w, s, y)
    ensures StepsToPreds(E, w, t, y)
    decreases y
  {
    assert s[y] == s[..y + 1][y] && t[y] == t[..y + 1][y];
    if y > 0 {
      assert s[y - 1] == s[..y + 1][y - 1] && t[y - 1] == t[..y + 1][y - 1];
      assert s[..y] == s[..y + 1][..y] && t[..y] == t[..y + 1][..y];
      StepsToPredsOfPrefix(E, w, s, t, y - 1);
    }
  }

  /** A backtracked path steps to predecessors all the way up. */
  lemma {:induction false} BacktrackStepsToPreds(E: seq<seq<nat>>, w: nat, x: int, y: nat)
    requires IsGrid(E, w) && y < |E| && 0 <= x < w
    ensures StepsToPreds(E, w, Backtrack(E, w, x, y), y)
    decreases y
  {
    if y > 0 {
      var p := Pred(E, w, x, y);
      var q := Backtrack(E, w, p, y - 1);
      var s := Backtrack(E, w, x, y);
      BacktrackStepsToPreds(E, w, p, y - 1);
      BacktrackStep(E, w, x, y);
      assert s[..y] == q[..y];
      StepsToPredsOfPrefix(E, w, q, s, y - 1);
    }
  }

  /** Two sequences that step to predecessors and agree at row y agree on
      rows 0 .. y. */
  lemma {:induction false} StepsToPredsAgree(E: seq<seq<nat>>, w: nat, s: seq<int>, t: seq<int>, y: nat)
    requires IsGrid(E, w) && y < |E| && y < |s| && y < |t|
    requires StepsToPreds(E, w, s, y) && StepsToPreds(E, w, t, y) && s[y] == t[y]
    ensures forall k | 0 <= k <= y :: s[k] == t[k]
    decreases y
  {
    if y > 0 {
      StepsToPredsAgree(E, w, s, t, y - 1);
    }
  }

  /** Optimality, second half: the backtracked path costs exactly the
      cumulative energy at its end. */
  lemma {:induction false} BacktrackCost(E: seq<seq<nat>>, w: nat, x: int, y: nat)
    requires IsGrid(E, w) && y < |E| && 0 <= x < w
    ensures PathCost(E, w, Backtrack(E, w, x, y)) == Cum(E, w, x, y)
    decreases y
  {
    if y > 0 {
      BacktrackCost(E, w, Pred(E, w, x, y), y - 1);
      BacktrackStep(E, w, x, y);
      CumViaPred(E, w, x, y);
    }
  }

  /** The cumulative energy of (x, y) is the least total own energy of any
      path from row 0 to (x, y), and Backtrack is such a least path. */
  lemma CumIsMinimumPathCost(E: seq<seq<nat>>, w: nat, x: int, y: nat)
    requires IsGrid(E, w) && y < |E| && 0 <= x < w
    ensures forall p {:trigger PathCost(E, w, p)} | IsPath(w, p) && |p| == y + 1 && p[y] == x ::
              Cum(E, w, x, y) <= PathCost(E, w, p)
    ensures PathCost(E, w, Backtrack(E, w, x, y)) == Cum(E, w, x, y)
  {
    forall p {:trigger PathCost(E, w, p)} | IsPath(w, p) && |p| == y + 1 && p[y] == x
      ensures Cum(E, w, x, y) <= PathCost(E, w, p)
    {
      CumIsLowerBound(E, w, p);
    }
    BacktrackCost(E, w, x, y);
  }

  /** The scan of columns 0 .. n - 1 of row y: the first column of least
      cumulative energy, or -1 when n = 0. */
  function RowArgMin(E: seq<seq<nat>>, w: nat, y: nat, n: nat): (r: int)
    requires IsGrid(E, w) && y < |E| && n <= w
    ensures r == -1 <==> n == 0
    ensures n > 0 ==> 0 <= r < n
    ensures n > 0 ==> forall c | 0 <= c < n :: Cum(E, w, r, y) <= Cum(E, w, c, y)
    ensures n > 0 ==> forall c | 0 <= c < n && Cum(E, w, c, y) == Cum(E, w, r, y) :: r <= c
    decreases n
  {
    if n == 0 then -1
    else
      var r := RowArgMin(E, w, y, n - 1);
      if r == -1 || Cum(E, w, n - 1, y) < Cum(E, w, r, y) then n - 1 else r
  }

  /** The scan is determined by its contract. */
  lemma RowArgMinIsUnique(E: seq<seq<nat>>, w: nat, y: nat, n: nat, q: int)
    requires IsGrid(E, w) && y < |E| && 0 < n <= w
    requires 0 <= q < n
    requires forall c | 0 <= c < n :: Cum(E, w, q, y) <= Cum(E, w, c, y)
    requires forall c | 0 <= c < n && Cum(E, w, c, y) == Cum(E, w, q, y) :: q <= c
    ensures q == RowArgMin(E, w, y, n)
  {
    var r := RowArgMin(E, w, y, n);
    assert Cum(E, w, r, y) <= Cum(E, w, q, y);
  }

  /** The vertical seam: one column per row, row 0 first, ending at the
      first column of least cumulative energy in the last row. */
  function Seam(E: seq<seq<nat>>, w: nat): (s: seq<int>)
    requires IsGrid(E, w) && 1 <= |E| && 1 <= w
    ensures |s| == |E| && IsPath(w, s)
  {
    Backtrack(E, w, RowArgMin(E, w, |E| - 1, w), |E| - 1)
  }

  /** s has one entry per row, ends at the first column of least cumulative
      energy in the last row, and each entry is the predecessor of the entry
      below it: the trace of the seam from the bottom row up. */
  ghost predicate FollowsPreds(E: seq<seq<nat>>, w: nat, s: seq<int>)
    requires IsGrid(E, w) && 1 <= |E| && 1 <= w
  {
    |s| == |E| && s[|E| - 1] == RowArgMin(E, w, |E| - 1, w) && StepsToPreds(E, w, s, |E| - 1)
  }

  /** The seam is traced from the bottom row up by following predecessors. */
  lemma SeamFollowsPreds(E: seq<seq<nat>>, w: nat)
    requires IsGrid(E, w) && 1 <= |E| && 1 <= w
    ensures FollowsPreds(E, w, Seam(E, w))
  {
    BacktrackStepsToPreds(E, w, RowArgMin(E, w, |E| - 1, w), |E| - 1);
  }

  /** Following predecessors from the bottom row up determines the seam. */
  lemma FollowsPredsIsSeam(E: seq<seq<nat>>, w: nat, s: seq<int>)
    requires IsGrid(E, w) && 1 <= |E| && 1 <= w
    requires FollowsPreds(E, w, s)
    ensures s == Seam(E, w)
  {
    SeamFollowsPreds(E, w);
    StepsToPredsAgree(E, w, s, Seam(E, w), |E| - 1);
  }

  /** The seam has the least total energy of any path from the top row to
      the bottom row. */
  lemma SeamIsOptimal(E: seq<seq<nat>>, w: nat, p: seq<int>)
    requires IsGrid(E, w) && 1 <= |E| && 1 <= w
    requires IsPath(w, p) && |p| == |E|
    ensures PathCost(E, w, Seam(E, w)) <= PathCost(E, w, p)
  {
    BacktrackCost(E, w, RowArgMin(E, w, |E| - 1, w), |E| - 1);
    CumIsLowerBound(E, w, p);
    PathSteps(w, p);
  }
}
