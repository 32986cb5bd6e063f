/** The Sudoku side of the solver: grids, candidates (a digit placed in a cell), the four
    exact-cover constraints each candidate satisfies, and what it means for a set of
    candidates to be an exact cover and for a grid to be a solution. */
module Sudoku {

  /** A 9x9 grid read row by row; 0 marks an empty cell. */
  type Grid = seq<seq<int>>

  /** Nine rows of nine cells. */
  predicate Shaped(g: Grid) {
    |g| == 9 && forall r :: 0 <= r < 9 ==> |g[r]| == 9
  }

  /** A well-formed puzzle: every cell holds 0 or a digit 1..9. */
  predicate IsGrid(g: Grid) {
    Shaped(g) && forall r, c :: 0 <= r < 9 && 0 <= c < 9 ==> 0 <= g[r][c] <= 9
  }

  /** The payload `{r, c, num}` of one exact-cover row: digit `num` placed at cell (r, c). */
  datatype Candidate = Candidate(r: int, c: int, num: int)

  predicate InRange(x: Candidate) {
    0 <= x.r < 9 && 0 <= x.c < 9 && 1 <= x.num <= 9
  }

  /** Index of the 3x3 box holding cell (r, c), boxes numbered row by row. */
  function Box(r: int, c: int): (b: int)
    requires 0 <= r < 9 && 0 <= c < 9
    ensures 0 <= b < 9
    ensures b / 3 == r / 3 && b % 3 == c / 3
  {
    (r / 3) * 3 + c / 3
  }

  /** The four constraint columns a candidate satisfies, one per 81-wide band:
      cell (r, c) is filled, row r holds num, column c holds num, box holds num. */
  function Constraints(x: Candidate): (idx: seq<int>)
    requires InRange(x)
    ensures |idx| == 4
    ensures 0 <= idx[0] < 81 && 81 <= idx[1] < 162 && 162 <= idx[2] < 243 && 243 <= idx[3] < 324
  {
    var b := Box(x.r, x.c);
    [x.r * 9 + x.c, 81 + x.r * 9 + (x.num - 1), 162 + x.c * 9 + (x.num - 1), 243 + b * 9 + (x.num - 1)]
  }

  /** Reads a candidate back from its cell column and its row-digit column. */
  function Decode(cell: int, rowDigit: int): (x: Candidate)
    requires 0 <= cell < 81 && 81 <= rowDigit < 162
    ensures InRange(x)
  {
    Candidate(cell / 9, cell % 9, (rowDigit - 81) % 9 + 1)
  }

  /** The constraint columns determine the candidate: Decode inverts Constraints. */
  lemma DecodeConstraints(x: Candidate)
    requires InRange(x)
    ensures Decode(Constraints(x)[0], Constraints(x)[1]) == x
  {
    var idx := Constraints(x);
    assert idx[0] == x.r * 9 + x.c;
    assert idx[0] / 9 == x.r && idx[0] % 9 == x.c;
    assert (idx[1] - 81) == x.r * 9 + (x.num - 1);
    assert (idx[1] - 81) % 9 == x.num - 1;
  }

  /** Two candidates meet in a column only within one band, and only when they agree on
      what that band describes. */
  lemma SharedConstraint(x: Candidate, y: Candidate, i: int, j: int)
    requires InRange(x) && InRange(y) && 0 <= i < 4 && 0 <= j < 4
    requires Constraints(x)[i] == Constraints(y)[j]
    ensures i == j
    ensures i == 0 ==> x.r == y.r && x.c == y.c
    ensures i == 1 ==> x.r == y.r && x.num == y.num
    ensures i == 2 ==> x.c == y.c && x.num == y.num
    ensures i == 3 ==> Box(x.r, x.c) == Box(y.r, y.c) && x.num == y.num
  {
    var bx, bxy := Box(x.r, x.c), Box(y.r, y.c);
    if i == 3 {
      assert 243 + bx * 9 + (x.num - 1) == 243 + bxy * 9 + (y.num - 1);
    }
  }

  /** The candidates `num = lo .. hi` of cell (r, c), in increasing order. */
  function Digits(r: int, c: int, lo: int, hi: int): seq<Candidate>
    decreases hi - lo
  {
    if lo > hi then [] else [Candidate(r, c, lo)] + Digits(r, c, lo + 1, hi)
  }

  lemma {:induction false} DigitsAt(r: int, c: int, lo: int, hi: int)
    ensures |Digits(r, c, lo, hi)| == if lo > hi then 0 else hi - lo + 1
    ensures forall k :: 0 <= k < |Digits(r, c, lo, hi)| ==> Digits(r, c, lo, hi)[k] == Candidate(r, c, lo + k)
    decreases hi - lo
  {
    if lo <= hi {
      DigitsAt(r, c, lo + 1, hi);
    }
  }

  /** Taking the first digit off a non-empty range and appending it to ys leaves the whole
      sequence unchanged, and ys was shorter than the whole. */
  lemma DigitsStep(ys: seq<Candidate>, zs: seq<Candidate>, r: int, c: int, lo: int, hi: int)
    requires lo <= hi && ys + Digits(r, c, lo, hi) == zs
    ensures (ys + [Candidate(r, c, lo)]) + Digits(r, c, lo + 1, hi) == zs && |ys| < |zs|
  {
    var x, rest := Candidate(r, c, lo), Digits(r, c, lo + 1, hi);
    assert Digits(r, c, lo, hi) == [x] + rest;
    assert (ys + [x]) + rest == ys + ([x] + rest);
  }

  /** The candidate rows created for cell (r, c): the given digit only, or 1..9 when empty. */
  function CellCandidates(g: Grid, r: int, c: int): seq<Candidate>
    requires IsGrid(g) && 0 <= r < 9 && 0 <= c < 9
  {
    var v := g[r][c];
    Digits(r, c, if v == 0 then 1 else v, if v == 0 then 9 else v)
  }

  /** A filled cell yields exactly one candidate, carrying its digit; an empty cell yields
      exactly nine, for the digits 1..9 in order. */
  lemma CellCandidatesSpec(g: Grid, r: int, c: int)
    requires IsGrid(g) && 0 <= r < 9 && 0 <= c < 9
    ensures g[r][c] != 0 ==> CellCandidates(g, r, c) == [Candidate(r, c, g[r][c])]
    ensures g[r][c] == 0 ==> |CellCandidates(g, r, c)| == 9
    ensures g[r][c] == 0 ==> forall k :: 0 <= k < 9 ==> CellCandidates(g, r, c)[k] == Candidate(r, c, k + 1)
  {
    var v := g[r][c];
    DigitsAt(r, c, if v == 0 then 1 else v, if v == 0 then 9 else v);
  }

  /** A candidate the builder may create for grid g: in range and agreeing with a filled cell. */
  predicate Allowed(g: Grid, x: Candidate)
    requires IsGrid(g)
  {
    InRange(x) && (g[x.r][x.c] == 0 || g[x.r][x.c] == x.num)
  }

  /** The candidates of cells (r, 0) .. (r, c - 1) of grid row r, cell by cell. */
  function RowCells(g: Grid, r: int, c: int): seq<Candidate>
    requires IsGrid(g) && 0 <= r < 9 && 0 <= c <= 9
  {
    if c == 0 then [] else RowCells(g, r, c - 1) + CellCandidates(g, r, c - 1)
  }

  /** The candidates of grid rows 0 .. r - 1, row by row. */
  function RowsBefore(g: Grid, r: int): seq<Candidate>
    requires IsGrid(g) && 0 <= r <= 9
  {
    if r == 0 then [] else RowsBefore(g, r - 1) + RowCells(g, r - 1, 9)
  }

  /** Every candidate row of the exact-cover matrix, in the order they are built. */
  function Candidates(g: Grid): seq<Candidate>
    requires IsGrid(g)
  {
    RowsBefore(g, 9)
  }

  lemma CellCandidatesMembers(g: Grid, r: int, c: int)
    requires IsGrid(g) && 0 <= r < 9 && 0 <= c < 9
    ensures |CellCandidates(g, r, c)| <= 9
    ensures forall x :: x in CellCandidates(g, r, c) <==> Allowed(g, x) && x.r == r && x.c == c
  {
    CellCandidatesSpec(g, r, c);
    var cc := CellCandidates(g, r, c);
    forall x | Allowed(g, x) && x.r == r && x.c == c
      ensures x in cc
    {
      if g[r][c] == 0 {
        assert cc[x.num - 1] == x;
      } else {
        assert cc[0] == x;
      }
    }
  }

  /** The first c cells of grid row r have at most nine candidates each, and they are exactly
      the allowed candidates of those cells. */
  lemma {:induction false} RowCellsSpec(g: Grid, r: int, c: int)
    requires IsGrid(g) && 0 <= r < 9 && 0 <= c <= 9
    ensures |RowCells(g, r, c)| <= 9 * c
    ensures forall x :: x in RowCells(g, r, c) <==> Allowed(g, x) && x.r == r && x.c < c
  {
    if c > 0 {
      RowCellsSpec(g, r, c - 1);
      CellCandidatesMembers(g, r, c - 1);
    }
  }

  /** The first r grid rows have at most 81 candidates each, and they are exactly the allowed
      candidates of those rows. */
  lemma {:induction false} RowsBeforeSpec(g: Grid, r: int)
    requires IsGrid(g) && 0 <= r <= 9
    ensures |RowsBefore(g, r)| <= 81 * r
    ensures forall x :: x in RowsBefore(g, r) <==> Allowed(g, x) && x.r < r
  {
    if r > 0 {
      RowsBeforeSpec(g, r - 1);
      RowCellsSpec(g, r - 1, 9);
    }
  }

  /** Room for the candidates of cell (r, c) after those of the cells before it: 729 at most. */
  lemma CellRoom(g: Grid, r: int, c: int)
    requires IsGrid(g) && 0 <= r < 9 && 0 <= c < 9
    ensures |RowsBefore(g, r) + RowCells(g, r, c) + CellCandidates(g, r, c)| <= 729
  {
    RowsBeforeSpec(g, r);
    RowCellsSpec(g, r, c);
    CellCandidatesMembers(g, r, c);
  }

  /** The candidates up to cell (r, c) are those before it and its own. */
  lemma CellDone(g: Grid, r: int, c: int)
    requires IsGrid(g) && 0 <= r < 9 && 0 <= c < 9
    ensures RowsBefore(g, r) + RowCells(g, r, c + 1) == RowsBefore(g, r) + RowCells(g, r, c) + CellCandidates(g, r, c)
  {
    assert RowCells(g, r, c + 1) == RowCells(g, r, c) + CellCandidates(g, r, c);
  }

  /** The matrix holds exactly the allowed candidates of the grid, at most 729 of them. */
  lemma CandidatesSpec(g: Grid)
    requires IsGrid(g)
    ensures |Candidates(g)| <= 729
    ensures forall x :: x in Candidates(g) <==> Allowed(g, x)
  {
    RowsBeforeSpec(g, 9);
  }

  /** A completed grid that keeps every filled cell of g and repeats no digit in a row,
      a column or a box. */
  predicate IsSolution(g: Grid, s: Grid)
    requires IsGrid(g)
  {
    Shaped(s) &&
    (forall r, c :: 0 <= r < 9 && 0 <= c < 9 ==> 1 <= s[r][c] <= 9) &&
    (forall r, c :: 0 <= r < 9 && 0 <= c < 9 && g[r][c] != 0 ==> s[r][c] == g[r][c]) &&
    (forall r, c1, c2 :: 0 <= r < 9 && 0 <= c1 < c2 < 9 ==> s[r][c1] != s[r][c2]) &&
    (forall c, r1, r2 :: 0 <= c < 9 && 0 <= r1 < r2 < 9 ==> s[r1][c] != s[r2][c]) &&
    (forall r1, c1, r2, c2 ::
       (0 <= r1 < 9 && 0 <= c1 < 9 && 0 <= r2 < 9 && 0 <= c2 < 9 &&
        (r1 != r2 || c1 != c2) && Box(r1, c1) == Box(r2, c2)) ==> s[r1][c1] != s[r2][c2])
  }

  /** Writes a candidate's digit into its cell. */
  function Place(s: Grid, x: Candidate): (t: Grid)
    requires Shaped(s) && InRange(x)
    ensures Shaped(t)
    ensures t[x.r][x.c] == x.num
    ensures forall r, c :: 0 <= r < 9 && 0 <= c < 9 && (r != x.r || c != x.c) ==> t[r][c] == s[r][c]
  {
    s[x.r := s[x.r][x.c := x.num]]
  }

  /** Writes the candidates' digits into s, first to last. */
  function Fill(s: Grid, xs: seq<Candidate>): (t: Grid)
    requires Shaped(s) && forall k :: 0 <= k < |xs| ==> InRange(xs[k])
    ensures Shaped(t)
  {
    if xs == [] then s else Place(Fill(s, xs[..|xs| - 1]), xs[|xs| - 1])
  }

  /** A cell no candidate names keeps its value; otherwise the last candidate naming it wins. */
  lemma {:induction false} FillAt(s: Grid, xs: seq<Candidate>, r: int, c: int)
    requires Shaped(s) && forall k :: 0 <= k < |xs| ==> InRange(xs[k])
    requires 0 <= r < 9 && 0 <= c < 9
    ensures (forall k :: 0 <= k < |xs| ==> xs[k].r != r || xs[k].c != c) ==> Fill(s, xs)[r][c] == s[r][c]
    ensures forall k ::
      (0 <= k < |xs| && xs[k].r == r && xs[k].c == c &&
       (forall k' :: k < k' < |xs| ==> xs[k'].r != r || xs[k'].c != c)) ==> Fill(s, xs)[r][c] == xs[k].num
  {
    if xs != [] {
      var init := xs[..|xs| - 1];
      FillAt(s, init, r, c);
    }
  }

  /** Some candidate satisfies constraint i. */
  predicate Covers(xs: seq<Candidate>, i: int)
    requires forall k :: 0 <= k < |xs| ==> InRange(xs[k])
  {
    exists k, q :: 0 <= k < |xs| && 0 <= q < 4 && Constraints(xs[k])[q] == i
  }

  /** Every one of the 324 constraints is met by exactly one of the candidates. */
  predicate ExactCover(xs: seq<Candidate>) {
    (forall k :: 0 <= k < |xs| ==> InRange(xs[k])) &&
    (forall i :: 0 <= i < 324 ==> Covers(xs, i)) &&
    (forall k1, k2, q1, q2 :: 0 <= k1 < |xs| && 0 <= k2 < |xs| && k1 != k2 && 0 <= q1 < 4 && 0 <= q2 < 4 ==>
       Constraints(xs[k1])[q1] != Constraints(xs[k2])[q2])
  }

  /** In an exact cover each cell is named by exactly one candidate, whose digit Fill leaves there. */
  lemma CellWriter(g: Grid, xs: seq<Candidate>, r: int, c: int) returns (k: int)
    requires Shaped(g) && ExactCover(xs) && 0 <= r < 9 && 0 <= c < 9
    ensures 0 <= k < |xs| && xs[k].r == r && xs[k].c == c
    ensures forall k' :: 0 <= k' < |xs| && xs[k'].r == r && xs[k'].c == c ==> k' == k
    ensures Fill(g, xs)[r][c] == xs[k].num
  {
    var i := r * 9 + c;
    assert Covers(xs, i);
    var k0, q :| 0 <= k0 < |xs| && 0 <= q < 4 && Constraints(xs[k0])[q] == i;
    k := k0;
    assert Constraints(Candidate(r, c, 1))[0] == i;
    SharedConstraint(xs[k], Candidate(r, c, 1), q, 0);
    forall k' | 0 <= k' < |xs| && xs[k'].r == r && xs[k'].c == c
      ensures k' == k
    {
      assert Constraints(xs[k'])[0] == Constraints(xs[k])[0];
    }
    FillAt(g, xs, r, c);
  }

  /** Soundness of the exact-cover formulation: allowed candidates that cover every constraint
      exactly once, written into the grid, give a solution that keeps the given digits. */
  lemma {:induction false} ExactCoverSolves(g: Grid, xs: seq<Candidate>)
    requires IsGrid(g) && ExactCover(xs)
    requires forall k :: 0 <= k < |xs| ==> Allowed(g, xs[k])
    ensures IsSolution(g, Fill(g, xs))
  {
    var s := Fill(g, xs);
    forall r, c | 0 <= r < 9 && 0 <= c < 9
      ensures 1 <= s[r][c] <= 9 && (g[r][c] != 0 ==> s[r][c] == g[r][c])
    {
      var k := CellWriter(g, xs, r, c);
    }
    forall r1, c1, r2, c2 | 0 <= r1 < 9 && 0 <= c1 < 9 && 0 <= r2 < 9 && 0 <= c2 < 9 && (r1 != r2 || c1 != c2)
      ensures (r1 == r2 || c1 == c2 || Box(r1, c1) == Box(r2, c2)) ==> s[r1][c1] != s[r2][c2]
    {
      var k1 := CellWriter(g, xs, r1, c1);
      var k2 := CellWriter(g, xs, r2, c2);
      var x1, x2 := xs[k1], xs[k2];
      assert k1 != k2;
      if r1 == r2 {
        assert Constraints(x1)[1] != Constraints(x2)[1];
      } else if c1 == c2 {
        assert Constraints(x1)[2] != Constraints(x2)[2];
      } else if Box(r1, c1) == Box(r2, c2) {
        assert Constraints(x1)[3] != Constraints(x2)[3];
      }
    }
  }

  /** n distinct values, each between 1 and n: a row, a column or a box of a solution. */
  predicate DistinctIn(vals: seq<int>, n: int) {
    (forall k :: 0 <= k < |vals| ==> 1 <= vals[k] <= n) &&
    (forall j, k :: 0 <= j < k < |vals| ==> vals[j] != vals[k])
  }

  /** Closes the gap left by a value v that vals does not hold: values above v move down by one. */
  function Squeeze(vals: seq<int>, v: int): (w: seq<int>)
    ensures |w| == |vals|
  {
    if vals == [] then []
    else Squeeze(vals[..|vals| - 1], v) + [if vals[|vals| - 1] > v then vals[|vals| - 1] - 1 else vals[|vals| - 1]]
  }

  lemma {:induction false} SqueezeAt(vals: seq<int>, v: int, k: int)
    requires 0 <= k < |vals|
    ensures Squeeze(vals, v)[k] == if vals[k] > v then vals[k] - 1 else vals[k]
  {
    if k < |vals| - 1 {
      SqueezeAt(vals[..|vals| - 1], v, k);
    }
  }

  /** Squeezing out a value between 1 and n that vals avoids keeps the values distinct and
      brings them between 1 and n - 1. */
  lemma SqueezeDistinct(vals: seq<int>, n: int, v: int)
    requires DistinctIn(vals, n) && 1 <= v <= n && forall k :: 0 <= k < |vals| ==> vals[k] != v
    ensures DistinctIn(Squeeze(vals, v), n - 1)
  {
    var w := Squeeze(vals, v);
    forall k | 0 <= k < |vals|
      ensures 1 <= w[k] <= n - 1
    {
      SqueezeAt(vals, v, k);
    }
    forall j, k | 0 <= j < k < |vals|
      ensures w[j] != w[k]
    {
      SqueezeAt(vals, v, j);
      SqueezeAt(vals, v, k);
    }
  }

  /** Pigeonhole: at most n distinct values fit between 1 and n. */
  lemma {:induction false} Fits(vals: seq<int>, n: int)
    requires 0 <= n && DistinctIn(vals, n)
    ensures |vals| <= n
    decreases |vals|
  {
    if vals != [] {
      var v, init := vals[|vals| - 1], vals[..|vals| - 1];
      assert DistinctIn(init, n);
      SqueezeDistinct(init, n, v);
      Fits(Squeeze(init, v), n - 1);
    }
  }

  /** Nine distinct digits hold every digit. */
  lemma EveryDigit(vals: seq<int>, d: int) returns (k: int)
    requires |vals| == 9 && DistinctIn(vals, 9) && 1 <= d <= 9
    ensures 0 <= k < 9 && vals[k] == d
  {
    if forall j :: 0 <= j < 9 ==> vals[j] != d {
      SqueezeDistinct(vals, 9, d);
      Fits(Squeeze(vals, d), 8);
      assert false;
    }
    k :| 0 <= k < 9 && vals[k] == d;
  }

  /** The candidates a completed grid chooses, one per cell in row-major order. */
  function SolutionCandidates(s: Grid): (xs: seq<Candidate>)
    requires Shaped(s)
    ensures |xs| == 81
    ensures forall k :: 0 <= k < 81 ==> xs[k] == Candidate(k / 9, k % 9, s[k / 9][k % 9])
  {
    seq(81, k requires 0 <= k < 81 => Candidate(k / 9, k % 9, s[k / 9][k % 9]))
  }

  /** Candidate 9r + c of a solution is the digit of cell (r, c), and it is allowed. */
  lemma SolutionCandidateAt(g: Grid, s: Grid, r: int, c: int)
    requires IsGrid(g) && IsSolution(g, s) && 0 <= r < 9 && 0 <= c < 9
    ensures SolutionCandidates(s)[9 * r + c] == Candidate(r, c, s[r][c])
    ensures Allowed(g, Candidate(r, c, s[r][c]))
  {
    var k := 9 * r + c;
    assert k / 9 == r && k % 9 == c;
  }

  /** Row r of a solution holds digit d. */
  lemma RowCovered(g: Grid, s: Grid, i: int)
    requires IsGrid(g) && IsSolution(g, s) && 81 <= i < 162
    ensures exists k :: 0 <= k < 81 && Constraints(SolutionCandidates(s)[k])[1] == i
  {
    var r, d := (i - 81) / 9, (i - 81) % 9 + 1;
    var c := EveryDigit(s[r], d);
    SolutionCandidateAt(g, s, r, c);
    assert Constraints(SolutionCandidates(s)[9 * r + c])[1] == i;
  }

  /** Column c of a solution holds digit d. */
  lemma ColumnCovered(g: Grid, s: Grid, i: int)
    requires IsGrid(g) && IsSolution(g, s) && 162 <= i < 243
    ensures exists k :: 0 <= k < 81 && Constraints(SolutionCandidates(s)[k])[2] == i
  {
    var c, d := (i - 162) / 9, (i - 162) % 9 + 1;
    var vals := seq(9, r requires 0 <= r < 9 => s[r][c]);
    var r := EveryDigit(vals, d);
    SolutionCandidateAt(g, s, r, c);
    assert Constraints(SolutionCandidates(s)[9 * r + c])[2] == i;
  }

  /** Cell t of box b, cells numbered row by row within the box. */
  lemma BoxCell(b: int, t: int) returns (r: int, c: int)
    requires 0 <= b < 9 && 0 <= t < 9
    ensures 0 <= r < 9 && 0 <= c < 9 && Box(r, c) == b
    ensures r == 3 * (b / 3) + t / 3 && c == 3 * (b % 3) + t % 3
  {
    r, c := 3 * (b / 3) + t / 3, 3 * (b % 3) + t % 3;
    assert r / 3 == b / 3 && c / 3 == b % 3;
  }

  /** The digits of box b of s, its cells numbered row by row within the box. */
  function BoxValues(s: Grid, b: int): (vals: seq<int>)
    requires Shaped(s) && 0 <= b < 9
    ensures |vals| == 9
  {
    seq(9, t requires 0 <= t < 9 => s[3 * (b / 3) + t / 3][3 * (b % 3) + t % 3])
  }

  /** The nine digits of a box of a solution are distinct. */
  lemma BoxDistinct(g: Grid, s: Grid, b: int)
    requires IsGrid(g) && IsSolution(g, s) && 0 <= b < 9
    ensures DistinctIn(BoxValues(s, b), 9)
  {
    var vals := BoxValues(s, b);
    forall t | 0 <= t < 9
      ensures 1 <= vals[t] <= 9
    {
      var r, c := BoxCell(b, t);
    }
    forall t1, t2 | 0 <= t1 < t2 < 9
      ensures vals[t1] != vals[t2]
    {
      var r1, c1 := BoxCell(b, t1);
      var r2, c2 := BoxCell(b, t2);
      assert r1 != r2 || c1 != c2;
    }
  }

  /** Box b of a solution holds digit d. */
  lemma BoxCovered(g: Grid, s: Grid, i: int)
    requires IsGrid(g) && IsSolution(g, s) && 243 <= i < 324
    ensures exists k :: 0 <= k < 81 && Constraints(SolutionCandidates(s)[k])[3] == i
  {
    var b, d := (i - 243) / 9, (i - 243) % 9 + 1;
    BoxDistinct(g, s, b);
    var t := EveryDigit(BoxValues(s, b), d);
    var r, c := BoxCell(b, t);
    SolutionCandidateAt(g, s, r, c);
    assert Constraints(SolutionCandidates(s)[9 * r + c])[3] == i;
  }

  /** Completeness of the exact-cover formulation: every solution that keeps the given digits
      chooses one allowed candidate per cell, those candidates cover every constraint exactly
      once, and writing them into the grid gives the solution back. */
  lemma SolutionCovers(g: Grid, s: Grid)
    requires IsGrid(g) && IsSolution(g, s)
    ensures forall k :: 0 <= k < 81 ==> Allowed(g, SolutionCandidates(s)[k])
    ensures ExactCover(SolutionCandidates(s))
    ensures Fill(g, SolutionCandidates(s)) == s
  {
    var xs := SolutionCandidates(s);
    forall k | 0 <= k < 81
      ensures Allowed(g, xs[k])
    {
      SolutionCandidateAt(g, s, k / 9, k % 9);
    }
    forall i | 0 <= i < 324
      ensures Covers(xs, i)
    {
      if i < 81 {
        SolutionCandidateAt(g, s, i / 9, i % 9);
        assert Constraints(xs[i])[0] == i;
      } else if i < 162 {
        RowCovered(g, s, i);
      } else if i < 243 {
        ColumnCovered(g, s, i);
      } else {
        BoxCovered(g, s, i);
      }
    }
    forall k1, k2, q1, q2 | 0 <= k1 < 81 && 0 <= k2 < 81 && k1 != k2 && 0 <= q1 < 4 && 0 <= q2 < 4
      ensures Constraints(xs[k1])[q1] != Constraints(xs[k2])[q2]
    {
      SolutionMeets(g, s, k1, k2, q1, q2);
    }
    var t := Fill(g, xs);
    forall r | 0 <= r < 9
      ensures t[r] == s[r]
    {
      forall c | 0 <= c < 9
        ensures t[r][c] == s[r][c]
      {
        var k := CellWriter(g, xs, r, c);
      }
    }
  }

  /** Two candidates that meet in a column agree on what that column's band describes. */
  lemma Shared(x: Candidate, y: Candidate, i: int, j: int)
    requires InRange(x) && InRange(y) && 0 <= i < 4 && 0 <= j < 4
    ensures Constraints(x)[i] == Constraints(y)[j] ==>
      i == j && (i == 0 ==> x.r == y.r && x.c == y.c) && (i == 1 ==> x.r == y.r && x.num == y.num) &&
      (i == 2 ==> x.c == y.c && x.num == y.num) && (i == 3 ==> Box(x.r, x.c) == Box(y.r, y.c) && x.num == y.num)
  {
    if Constraints(x)[i] == Constraints(y)[j] {
      SharedConstraint(x, y, i, j);
    }
  }

  /** Two different cells of a solution never meet in a constraint. */
  lemma SolutionMeets(g: Grid, s: Grid, k1: int, k2: int, q1: int, q2: int)
    requires IsGrid(g) && IsSolution(g, s)
    requires 0 <= k1 < 81 && 0 <= k2 < 81 && k1 != k2 && 0 <= q1 < 4 && 0 <= q2 < 4
    ensures Constraints(SolutionCandidates(s)[k1])[q1] != Constraints(SolutionCandidates(s)[k2])[q2]
  {
    var r1, c1, r2, c2 := k1 / 9, k1 % 9, k2 / 9, k2 % 9;
    assert k1 == 9 * r1 + c1 && k2 == 9 * r2 + c2;
    assert r1 != r2 || c1 != c2;
    SolutionCandidateAt(g, s, r1, c1);
    SolutionCandidateAt(g, s, r2, c2);
    if r1 == r2 {
      if c1 < c2 {
        assert s[r1][c1] != s[r1][c2];
      } else {
        assert s[r1][c2] != s[r1][c1];
      }
    }
    if c1 == c2 {
      if r1 < r2 {
        assert s[r1][c1] != s[r2][c1];
      } else {
        assert s[r2][c1] != s[r1][c1];
      }
    }
    Shared(SolutionCandidates(s)[k1], SolutionCandidates(s)[k2], q1, q2);
  }
}
