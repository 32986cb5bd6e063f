/** The solver object of src/dlx.js: the toroidal matrix stored as parallel arrays indexed
    by node id (see module Dancing for the layout), the solution stack and the result grid. */
module Solver {
  import opened CircularLists
  import opened Dancing
  import opened Sudoku
  import opened Solutions
  import opened Building

  /** Nodes the matrix can hold: the root, 324 column headers and four nodes for each of at
      most 729 candidates. */
  const Capacity := FirstRow + 4 * 729

  class SudokuDLX {
    var left: array<int>
    var right: array<int>
    var up: array<int>
    var down: array<int>
    var column: array<int>
    /** `size` of every header node. */
    var size: array<int>
    /** The `{r, c, num}` payload carried by every row node. */
    var data: array<Candidate>
    /** Number of nodes created so far. */
    var count: int
    var solution: seq<Candidate>
    var resultGrid: Grid

    predicate Arrays()
      reads this`left, this`right, this`up, this`down, this`column, this`size, this`data, this`count
    {
      left.Length == Capacity && right.Length == Capacity && up.Length == Capacity &&
        down.Length == Capacity && column.Length == Capacity && data.Length == Capacity &&
        size.Length == FirstRow && 0 <= count <= Capacity &&
        left != right && left != up && left != down && left != column && left != size &&
        right != up && right != down && right != column && right != size &&
        up != down && up != column && up != size &&
        down != column && down != size && column != size
    }

    /** The pointers of the first `count` nodes and the header sizes. */
    function Links(): (m: Links)
      reads this`left, this`right, this`up, this`down, this`column, this`size, this`data, this`count
      reads left, right, up, down, column, size
      requires Arrays()
      ensures |m.C| == count && |m.S| == FirstRow
    {
      Dancing.Links(left[..count], right[..count], up[..count], down[..count], column[..count], size[..])
    }

    /** `constructor()` (src/dlx.js:27-32): the arena, holding just the root header, and an
        empty solution and result grid. */
    constructor ()
      ensures Arrays() && HeaderPhase(Links(), 0) && solution == [] && resultGrid == []
    {
      left := new int[Capacity];
      right := new int[Capacity];
      up := new int[Capacity];
      down := new int[Capacity];
      column := new int[Capacity];
      size := new int[FirstRow];
      data := new Candidate[Capacity];
      count := 0;
      solution := [];
      resultGrid := [];
      new;
      RootPhase(Links());
      ghost var s, g := solution, resultGrid;
      var root := NewColumnNode();
      assert solution == s && resultGrid == g;
    }

    /** `new ColumnNode(name)` (src/dlx.js:18-23): node `count`, linked to itself, its own
        column, of size 0. */
    method NewColumnNode() returns (n: int)
      requires Arrays() && count < FirstRow
      modifies left, right, up, down, column, size, this`count
      ensures Arrays() && n == old(count) && Links() == NewHeader(old(Links()))
    {
      ghost var m := Links();
      n := count;
      left[n], right[n], up[n], down[n], column[n] := n, n, n, n, n;
      size[n] := 0;
      count := count + 1;
      assert left[..count] == m.L + [n] && right[..count] == m.R + [n];
      assert up[..count] == m.U + [n] && down[..count] == m.D + [n] && column[..count] == m.C + [n];
    }

    /** `new Node(colNode)` (src/dlx.js:7-14): node `count`, linked to itself, in column col. */
    method NewRowNode(col: int) returns (n: int)
      requires Arrays() && count < Capacity
      modifies left, right, up, down, column, this`count
      ensures Arrays() && n == old(count) && Links() == NewNode(old(Links()), col)
      ensures data == old(data) && data[..n] == old(data[..count])
    {
      ghost var m := Links();
      n := count;
      left[n], right[n], up[n], down[n], column[n] := n, n, n, n, col;
      count := count + 1;
      assert left[..count] == m.L + [n] && right[..count] == m.R + [n];
      assert up[..count] == m.U + [n] && down[..count] == m.D + [n] && column[..count] == m.C + [col];
    }

    /** `linkRight(leftNode, newNode)` (src/dlx.js:77-82). */
    method LinkRightNode(leftNode: int, newNode: int)
      requires Arrays() && 0 <= leftNode < count && 0 <= newNode < count && 0 <= right[leftNode] < count
      modifies left, right
      ensures Arrays() && Links() == LinkRight(old(Links()), leftNode, newNode)
    {
      ghost var m := Links();
      assert m.R[leftNode] == right[leftNode];
      right[newNode] := right[leftNode];
      left[right[newNode]] := newNode;
      right[leftNode] := newNode;
      left[newNode] := leftNode;
      ghost var R1 := m.R[newNode := m.R[leftNode]];
      assert right[..count] == R1[leftNode := newNode];
      assert left[..count] == m.L[R1[newNode] := newNode][newNode := leftNode];
    }

    /** `linkDown(upNode, newNode)` (src/dlx.js:85-91). */
    method LinkDownNode(upNode: int, newNode: int)
      requires Arrays() && 0 <= upNode < count && 0 <= newNode < count && 0 <= down[upNode] < count
      requires 0 <= column[upNode] < FirstRow
      modifies up, down, size
      ensures Arrays() && Links() == LinkDown(old(Links()), upNode, newNode)
    {
      ghost var m := Links();
      assert m.D[upNode] == down[upNode] && m.C[upNode] == column[upNode];
      down[newNode] := down[upNode];
      up[down[newNode]] := newNode;
      down[upNode] := newNode;
      up[newNode] := upNode;
      size[column[upNode]] := size[column[upNode]] + 1;
      ghost var D1 := m.D[newNode := m.D[upNode]];
      assert down[..count] == D1[upNode := newNode];
      assert up[..count] == m.U[D1[newNode] := newNode][newNode := upNode];
    }

    /** `addMatrixRow(columns, indices, data)` (src/dlx.js:93-114), where `columns[i]` is
        header node i + 1: one node per index, each carrying x, hung at the bottom of its
        column and linked right of the previous one. */
    method AddMatrixRow(indices: seq<int>, x: Candidate)
      requires Arrays() && Sane(Links()) && FirstRow <= count && count + |indices| <= Capacity
      requires forall j :: 0 <= j < |indices| ==> 0 <= indices[j] < ColumnCount
      modifies left, right, up, down, column, size, data, this`count
      ensures Arrays() && Links() == AddNodes(old(Links()), ColumnNodes(indices), |indices|)
      ensures |old(data[..count])| <= count && data[..old(count)] == old(data[..count]) && Stamped(data[..count], old(count), x)
    {
      ghost var m0, d0, hs := Links(), data[..count], ColumnNodes(indices);
      var prevNode: Option<int> := None;
      var i := 0;
      assert d0[..|m0.C|] == d0;
      while i < |indices|
        invariant Arrays() && 0 <= i <= |indices| && count == |m0.C| + i
        invariant RowPass(m0, d0, hs, x, i, Links(), data[..count], prevNode)
      {
        var newNode := AddRowPass(indices, x, m0, d0, i, prevNode);
        prevNode := Some(newNode);
        i := i + 1;
      }
    }

    /** Pass i of the loop of `addMatrixRow` (src/dlx.js:98-112), over the links m0 and
        payloads d0 the row started from: node `count` joins the row in column
        `indices[i] + 1`, after prevNode. */
    method AddRowPass(indices: seq<int>, x: Candidate, ghost m0: Links, ghost d0: seq<Candidate>, i: int,
                      prevNode: Option<int>) returns (newNode: int)
      requires Arrays() && Sane(m0) && FirstRow <= |m0.C| && 0 <= i < |indices| && count == |m0.C| + i < Capacity
      requires forall j :: 0 <= j < |indices| ==> 0 <= indices[j] < ColumnCount
      requires RowPass(m0, d0, ColumnNodes(indices), x, i, Links(), data[..count], prevNode)
      modifies left, right, up, down, column, size, data, this`count
      ensures Arrays() && count == old(count) + 1 && newNode == old(count)
      ensures RowPass(m0, d0, ColumnNodes(indices), x, i + 1, Links(), data[..count], Some(newNode))
    {
      ghost var hs, p, dd := ColumnNodes(indices), Links(), data[..count];
      RowPassStep(m0, d0, hs, x, i, p, dd, prevNode);
      newNode := AddRowNode(indices[i] + 1, prevNode, x);
      assert hs[i] == indices[i] + 1;
    }

    /** One pass of the loop of `addMatrixRow` (src/dlx.js:97-113): a new node in column
        colNode carrying x, linked at the bottom of its column and, when there is a previous
        node, right of it. */
    method AddRowNode(colNode: int, prevNode: Option<int>, x: Candidate) returns (newNode: int)
      requires Arrays() && Sane(Links()) && FirstRow <= count < Capacity && 0 <= colNode < FirstRow
      requires prevNode.Some? ==> 0 <= prevNode.value < count
      modifies left, right, up, down, column, size, data, this`count
      ensures Arrays() && newNode == old(count) && Links() == AddNode(old(Links()), colNode, prevNode)
      ensures data[..count] == old(data[..count]) + [x]
    {
      ghost var d0 := data[..count];
      newNode := NewRowNode(colNode);
      data[newNode] := x;
      ghost var d1 := data[..count];
      assert d1 == d0 + [x];
      LinkDownNode(up[colNode], newNode);
      if prevNode.Some? {
        LinkRightNode(prevNode.value, newNode);
      }
      assert data[..count] == d1;
    }

    /** `initialize(initialGrid)` (src/dlx.js:35-74): a fresh root, the 324 column headers
        linked right of each other in order, then one row for every allowed candidate, cell
        by cell and digit by digit. The result is ready for `search` with every column
        active, every row node hangs in its column, row k carries the k-th candidate of the
        grid, and the size of every header is the number of candidates whose row meets it. */
    method Initialize(g: Grid) returns (ghost a: Lists)
      requires Arrays() && IsGrid(g)
      modifies this`count, this`solution, this`resultGrid, left, right, up, down, column, size, data
      ensures Ready(a) && a.active == AllColumns() && solution == [] && resultGrid == g
      ensures RowsCarry(data[..count], Candidates(g)) && AllHang(Links(), a)
      ensures forall h :: 0 <= h < FirstRow ==> size[h] == Touching(Candidates(g), h)
    {
      count := 0;
      RootPhase(Links());
      var header := NewColumnNode();
      solution := [];
      resultGrid := g;
      AddHeaders();
      assert solution == [];
      HeadersDone(Links());
      ghost var cols := AddCells(g);
      assert solution == [];
      a := Lists(AllColumns(), cols);
      HangsWhole(Links(), a);
      forall h | 0 <= h < FirstRow
        ensures size[h] == Touching(Candidates(g), h)
      {
        assert Column(Links(), h, cols[h]);
      }
    }

    /** The header loop of `initialize` (src/dlx.js:41-47): column headers 1 .. 324, each
        linked in just left of the root, so that the header list runs 1 .. 324 in order. */
    method AddHeaders()
      requires Arrays() && HeaderPhase(Links(), 0)
      modifies left, right, up, down, column, size, data, this`count
      ensures Arrays() && HeaderPhase(Links(), ColumnCount)
    {
      var i := 0;
      while i < ColumnCount
        invariant Arrays() && 0 <= i <= ColumnCount && HeaderPhase(Links(), i)
      {
        ghost var m := Links();
        HeaderStep(m, i);
        var col := NewColumnNode();
        LinkRightNode(left[Root], col);
        i := i + 1;
      }
    }

    /** The cell loops of `initialize` (src/dlx.js:50-73): the rows of every cell, row-major,
        join the matrix whose headers are in place. */
    method AddCells(g: Grid) returns (ghost cols: seq<seq<int>>)
      requires Built(g, EmptyColumns(), [])
      modifies left, right, up, down, column, size, data, this`count
      ensures Built(g, cols, Candidates(g)) && Counted(cols, Candidates(g))
    {
      cols := EmptyColumns();
      var r := 0;
      while r < 9
        invariant 0 <= r <= 9 && Built(g, cols, RowsBefore(g, r)) && Counted(cols, RowsBefore(g, r))
      {
        var c := 0;
        assert RowsBefore(g, r) + RowCells(g, r, 0) == RowsBefore(g, r);
        while c < 9
          invariant 0 <= c <= 9 && Built(g, cols, RowsBefore(g, r) + RowCells(g, r, c))
          invariant Counted(cols, RowsBefore(g, r) + RowCells(g, r, c))
        {
          CellRoom(g, r, c);
          cols := AddCell(g, r, c, cols, RowsBefore(g, r) + RowCells(g, r, c));
          CellDone(g, r, c);
          c := c + 1;
        }
        assert RowsBefore(g, r + 1) == RowsBefore(g, r) + RowCells(g, r, 9);
        r := r + 1;
      }
    }

    /** The arrays hold the matrix `initialize` builds for grid g with the rows of the
        candidates xs and column lists cols (see BuiltFor). */
    ghost predicate Built(g: Grid, cols: seq<seq<int>>, xs: seq<Candidate>)
      reads this`left, this`right, this`up, this`down, this`column, this`size, this`data, this`count
      reads this`resultGrid, left, right, up, down, column, size, data
    {
      Arrays() && resultGrid == g && BuiltFor(g, xs, cols, Links(), data[..count])
    }

    /** The rows of cell (r, c) (src/dlx.js:51-71): the given digit only, or 1 .. 9 when the
        cell is empty. */
    method AddCell(g: Grid, r: int, c: int, ghost cols: seq<seq<int>>, ghost xs: seq<Candidate>)
      returns (ghost cols': seq<seq<int>>)
      requires Built(g, cols, xs) && Counted(cols, xs) && 0 <= r < 9 && 0 <= c < 9
      requires |xs + CellCandidates(g, r, c)| <= 729
      modifies left, right, up, down, column, size, data, this`count
      ensures Built(g, cols', xs + CellCandidates(g, r, c)) && Counted(cols', xs + CellCandidates(g, r, c))
    {
      var val := g[r][c];
      var start := if val == 0 then 1 else val;
      var end := if val == 0 then 9 else val;
      var num := start;
      cols' := cols;
      ghost var ys := xs;
      while num <= end
        invariant start <= num <= end + 1
        invariant ys + Digits(r, c, num, end) == xs + CellCandidates(g, r, c) && Built(g, cols', ys)
        invariant Counted(cols', ys)
        decreases end - num
      {
        DigitsStep(ys, xs + CellCandidates(g, r, c), r, c, num, end);
        cols' := AddDigit(g, r, c, num, cols', ys);
        ys := ys + [Candidate(r, c, num)];
        num := num + 1;
      }
      assert ys == xs + CellCandidates(g, r, c);
    }

    /** The row of digit num in cell (r, c) joins the matrix built so far. */
    method AddDigit(g: Grid, r: int, c: int, num: int, ghost cols: seq<seq<int>>, ghost ys: seq<Candidate>)
      returns (ghost cols': seq<seq<int>>)
      requires Built(g, cols, ys) && Counted(cols, ys) && |ys| < 729 && Allowed(g, Candidate(r, c, num))
      modifies left, right, up, down, column, size, data, this`count
      ensures Built(g, cols', ys + [Candidate(r, c, num)]) && Counted(cols', ys + [Candidate(r, c, num)])
    {
      ghost var m0, d0 := Links(), data[..count];
      ghost var x := Candidate(r, c, num);
      BuiltRoom(g, ys, cols, m0, d0);
      AddCandidate(r, c, num);
      BuiltStep(g, ys, cols, m0, d0, x, Links(), data[..count]);
      CountedStep(cols, ys, x, |m0.C|);
      cols' := Grown(cols, Columns(x), |m0.C|, 4);
    }

    /** One pass of the digit loop of `initialize` (src/dlx.js:58-70): the four constraint
        indices of digit num in cell (r, c), and the row that meets them, each of its nodes
        carrying the candidate. */
    method AddCandidate(r: int, c: int, num: int)
      requires Arrays() && Sane(Links()) && FirstRow <= count && count + 4 <= Capacity && InRange(Candidate(r, c, num))
      modifies left, right, up, down, column, size, data, this`count
      ensures Arrays() && Links() == AddNodes(old(Links()), ColumnNodes(Constraints(Candidate(r, c, num))), 4)
      ensures |old(data[..count])| <= count && data[..old(count)] == old(data[..count])
      ensures Stamped(data[..count], old(count), Candidate(r, c, num))
    {
      var boxIdx := (r / 3) * 3 + c / 3;
      var idx1 := r * 9 + c;
      var idx2 := 81 + r * 9 + (num - 1);
      var idx3 := 162 + c * 9 + (num - 1);
      var idx4 := 243 + boxIdx * 9 + (num - 1);
      var x := Candidate(r, c, num);
      assert boxIdx == Box(r, c);
      ghost var idx := Constraints(x);
      assert idx[0] == idx1 && idx[1] == idx2 && idx[2] == idx3 && idx[3] == idx4;
      assert [idx1, idx2, idx3, idx4] == idx;
      AddMatrixRow([idx1, idx2, idx3, idx4], x);
    }

    /** `j.down.up = j.up; j.up.down = j.down; j.column.size--` */
    method SpliceOutNode(j: int)
      requires Arrays() && Arena(Links()) && 0 <= j < count
      modifies up, down, size
      ensures Arrays() && Links() == SpliceOut(old(Links()), j)
    {
      ghost var m := Links();
      up[down[j]] := up[j];
      down[up[j]] := down[j];
      size[column[j]] := size[column[j]] - 1;
      assert up[..count] == m.U[m.D[j] := m.U[j]];
    }

    /** `j.column.size++; j.down.up = j; j.up.down = j` */
    method SpliceInNode(j: int)
      requires Arrays() && Arena(Links()) && 0 <= j < count
      modifies up, down, size
      ensures Arrays() && Links() == SpliceIn(old(Links()), j)
    {
      ghost var m := Links();
      size[column[j]] := size[column[j]] + 1;
      up[down[j]] := j;
      down[up[j]] := j;
      assert up[..count] == m.U[m.D[j] := j];
    }

    /** `c.right.left = c.left; c.left.right = c.right` */
    method HeaderOutNode(c: int)
      requires Arrays() && Arena(Links()) && 0 <= c < count
      modifies left, right
      ensures Arrays() && Links() == HeaderOut(old(Links()), c)
    {
      ghost var m := Links();
      left[right[c]] := left[c];
      right[left[c]] := right[c];
      assert left[..count] == m.L[m.R[c] := m.L[c]];
    }

    /** `c.right.left = c; c.left.right = c` */
    method HeaderInNode(c: int)
      requires Arrays() && Arena(Links()) && 0 <= c < count
      modifies left, right
      ensures Arrays() && Links() == HeaderIn(old(Links()), c)
    {
      ghost var m := Links();
      left[right[c]] := c;
      right[left[c]] := c;
      assert left[..count] == m.L[m.R[c] := c];
    }

    /** `cover(c)`, with a the lists the links hold: takes header c off the root's list and
        every other node of every row of column c off its column's list. */
    method Cover(c: int, ghost a: Lists)
      requires Arrays() && Wf(Links(), a) && RowsWhole(Links(), a) && c in a.active
      modifies left, right, up, down, size
      ensures Arrays() && Links() == CoverLinks(old(Links()), a.cols[c], c)
    {
      ghost var m := Links();
      CoverWalk(m, a, c);
      HeaderOutNode(c);
      CoverRows(c, a.cols[c]);
    }

    /** The outer loop of `cover(c)`: the rows i of column c, top to bottom. */
    method CoverRows(c: int, ghost s: seq<int>)
      requires Arrays() && CoverReady(Links(), c, s)
      modifies up, down, size
      ensures Arrays() && Links() == Unlinked(old(Links()), s, |s|)
    {
      ghost var m0 := Links();
      var i := down[c];
      ghost var k := 0;
      while i != c
        invariant CoverPass(c, s, m0, k, i)
        decreases |s| - k
      {
        i := CoverRowOf(c, s, m0, k, i);
        k := k + 1;
      }
    }

    /** The state of the outer loop of `cover(c)` after k passes, about to visit row node i
        (the header c once the rows s of column c are used up). */
    ghost predicate CoverPass(c: int, s: seq<int>, m0: Links, k: int, i: int)
      reads this`left, this`right, this`up, this`down, this`column, this`size, this`data, this`count
      reads left, right, up, down, column, size
    {
      Arrays() && CoverReady(m0, c, s) && 0 <= k <= |s| && i == (s + [c])[k] && (i == c <==> k == |s|) &&
        Links() == Unlinked(m0, s, k)
    }

    /** One pass of the outer loop of `cover(c)`: row i comes off the other columns, and the
        walk goes on to `i.down`. */
    method CoverRowOf(c: int, ghost s: seq<int>, ghost m0: Links, ghost k: int, i: int) returns (next: int)
      requires CoverPass(c, s, m0, k, i) && k < |s|
      modifies up, down, size
      ensures CoverPass(c, s, m0, k + 1, next)
    {
      ghost var mk := Links();
      CoverRow(i);
      assert Unlinked(m0, s, k + 1) == RowOut(mk, s[k], 3);
      next := down[i];
      WalkEnds(s, count, c, k + 1);
    }

    /** The inner loop of `cover(c)`: the other nodes j of row i, left to right, each taken
        off its column. */
    method CoverRow(i: int)
      requires Arrays() && Arena(Links()) && FirstRow <= i < count
      requires forall n :: FirstRow <= n < count ==> right[n] == RowNth(n, 1)
      modifies up, down, size
      ensures Arrays() && Links() == RowOut(old(Links()), i, 3)
    {
      ghost var m0 := Links();
      var j := right[i];
      ghost var p := 0;
      RowNthCycle(i, 1);
      RowWithin(count, i);
      while j != i
        invariant Arrays() && 0 <= p <= 3 && j == RowNth(i, p + 1) && (j == i <==> p == 3)
        invariant Links() == RowOut(m0, i, p)
        decreases 3 - p
      {
        SpliceOutNode(j);
        RowNthCompose(i, p + 1, 1);
        RowNthCycle(i, p + 2);
        j := right[j];
        p := p + 1;
      }
    }

    /** `uncover(c)` right after `cover(c)`, where m and a are the links and lists before the
        cover: puts every other node of every row of column c back, bottom row first and
        right to left in each row, and then header c. */
    method Uncover(c: int, ghost m: Links, ghost a: Lists)
      requires Arrays() && Wf(m, a) && RowsWhole(m, a) && c in a.active
      requires Links() == CoverLinks(m, a.cols[c], c)
      modifies left, right, up, down, size
      ensures Arrays() && Links() == UncoverLinks(old(Links()), a.cols[c], c)
      ensures Links() == m
    {
      UncoverWalk(m, a, c);
      UncoverRows(c, a.cols[c]);
      HeaderInNode(c);
    }

    /** The outer loop of `uncover(c)`: the rows i of column c, bottom to top. */
    method UncoverRows(c: int, ghost s: seq<int>)
      requires Arrays() && UncoverReady(Links(), c, s)
      modifies up, down, size
      ensures Arrays() && Links() == Relinked(old(Links()), s, 0)
    {
      ghost var mc := Links();
      var i := up[c];
      ghost var k := |s|;
      while i != c
        invariant UncoverPass(c, s, mc, k, i)
        decreases k
      {
        i := UncoverRowOf(c, s, mc, k, i);
        k := k - 1;
      }
    }

    /** The state of the outer loop of `uncover(c)` with the rows s[k..] linked back, about
        to visit row node i (the header c once the rows are used up). */
    ghost predicate UncoverPass(c: int, s: seq<int>, mc: Links, k: int, i: int)
      reads this`left, this`right, this`up, this`down, this`column, this`size, this`data, this`count
      reads left, right, up, down, column, size
    {
      Arrays() && UncoverReady(mc, c, s) && 0 <= k <= |s| && i == ([c] + s)[k] && (i == c <==> k == 0) &&
        Links() == Relinked(mc, s, k)
    }

    /** One pass of the outer loop of `uncover(c)`: row i goes back into the other columns,
        and the walk goes on to `i.up`. */
    method UncoverRowOf(c: int, ghost s: seq<int>, ghost mc: Links, ghost k: int, i: int)
      returns (next: int)
      requires UncoverPass(c, s, mc, k, i) && 0 < k
      modifies up, down, size
      ensures UncoverPass(c, s, mc, k - 1, next)
    {
      ghost var mk := Links();
      UncoverRow(i);
      RelinkedStep(mc, s, k);
      next := up[i];
      WalkEnds(s, count, c, k - 1);
    }

    /** The inner loop of `uncover(c)`: the other nodes j of row i, right to left, each put
        back into its column. */
    method UncoverRow(i: int)
      requires Arrays() && Arena(Links()) && FirstRow <= i < count
      requires forall n :: FirstRow <= n < count ==> left[n] == RowNth(n, 3)
      modifies up, down, size
      ensures Arrays() && Links() == RowIn(old(Links()), i, 3)
    {
      ghost var m0 := Links();
      var j := left[i];
      ghost var p := 0;
      RowNthCycle(i, 3);
      RowWithin(count, i);
      while j != i
        invariant Arrays() && 0 <= p <= 3 && j == RowNth(i, 3 - p) && (j == i <==> p == 3)
        invariant Links() == RowIn(m0, i, p)
        decreases 3 - p
      {
        SpliceInNode(j);
        RowNthCompose(i, 3 - p, 3);
        RowNthCycle(i, 2 - p);
        j := left[j];
        p := p + 1;
      }
    }

    /** Every row node carries an allowed candidate of the grid being solved, and sits in
        that candidate's column for its position in the row. */
    ghost predicate Carrying()
      reads this`column, this`data, this`count, this`resultGrid, column, data
    {
      0 <= count <= column.Length && count <= data.Length && IsGrid(resultGrid) &&
        Carries(column[..count], data[..count], resultGrid)
    }

    /** The links are the lists a, every row hanging on an active column is whole, and
        every row node carries an allowed candidate of the grid being solved. */
    ghost predicate Ready(a: Lists)
      reads this`left, this`right, this`up, this`down, this`column, this`size, this`data, this`count
      reads this`resultGrid, left, right, up, down, column, size, data
    {
      Arrays() && Wf(Links(), a) && RowsWhole(Links(), a) && Carrying()
    }

    /** The column heuristic of `search` (src/dlx.js:153-156): the active column of least
        size, the first one in list order on ties. */
    method ChooseColumn(ghost a: Lists) returns (c: int, ghost i: int)
      requires Arrays() && Wf(Links(), a) && right[Root] != Root
      ensures 0 <= i < |a.active| && c == a.active[i]
      ensures forall j :: 0 <= j < |a.active| ==> size[c] <= size[a.active[j]]
      ensures forall j :: 0 <= j < i ==> size[c] < size[a.active[j]]
    {
      ghost var m := Links();
      ghost var hs := a.active + [Root];
      assert right[Root] == m.R[Root];
      c := right[Root];
      i := 0;
      assert m.R[c] == hs[1];
      var temp := right[c];
      ghost var p := 1;
      while temp != Root
        invariant 0 <= i < p <= |a.active| && c == a.active[i] && temp == hs[p]
        invariant forall j :: 0 <= j < p ==> size[c] <= size[a.active[j]]
        invariant forall j :: 0 <= j < i ==> size[c] < size[a.active[j]]
        decreases |a.active| - p
      {
        if size[temp] < size[c] {
          c := temp;
          i := p;
        }
        assert m.R[temp] == hs[p + 1];
        temp := right[temp];
        p := p + 1;
      }
    }

    /** In well-formed links, `n.right` and `n.left` of a row node n stay in its row. */
    lemma RowStep(a: Lists, n: int)
      requires Arrays() && Wf(Links(), a) && FirstRow <= n < count
      ensures right[n] == RowNth(n, 1) && left[n] == RowNth(n, 3)
    {
      RowLinks(Links(), a, n);
      assert right[n] == Links().R[n] && left[n] == Links().L[n];
    }

    /** The other nodes of row r sit in the columns hs, left to right. */
    ghost predicate RowChoice(r: int, hs: seq<int>)
      reads this`column, this`count, column
    {
      count <= column.Length && FirstRow <= r && NodeAt(Row(r), 3) < count &&
      |hs| == 3 && forall q :: 0 <= q < 3 ==> hs[q] == column[RowNth(r, q + 1)]
    }

    /** The first inner loop of `search` (src/dlx.js:163-165): covers the columns hs of the
        other nodes of row r, left to right, taking the links through the stages ms (with
        lists ls). */
    method CoverOthers(r: int, ghost ms: seq<Links>, ghost ls: seq<Lists>, ghost hs: seq<int>)
      requires Arrays() && RowChoice(r, hs) && Staged(ms, ls, hs) && Links() == ms[0]
      modifies left, right, up, down, size
      ensures Arrays() && Links() == ms[3]
    {
      assert StepAt(ms, ls, hs, 0);
      RowStep(ls[0], r);
      RowWithin(count, r);
      var j := right[r];
      ghost var p := 0;
      RowNthCycle(r, 1);
      while j != r
        invariant Arrays() && RowChoice(r, hs) && 0 <= p <= 3 && Links() == ms[p]
        invariant j == RowNth(r, p + 1) && (j == r <==> p == 3)
        decreases 3 - p
      {
        assert column[j] == hs[p];
        j := CoverOther(j, ms, ls, hs, p);
        RowNthCompose(r, p + 1, 1);
        RowNthCycle(r, p + 2);
        p := p + 1;
      }
    }

    /** One pass of that loop: `coverColumn(j.column)`, which takes the links from stage p
        to stage p + 1, then on to `j.right`. */
    method CoverOther(j: int, ghost ms: seq<Links>, ghost ls: seq<Lists>, ghost hs: seq<int>, ghost p: int)
      returns (next: int)
      requires Arrays() && Staged(ms, ls, hs) && 0 <= p < |hs| && Links() == ms[p]
      requires FirstRow <= j < count && column[j] == hs[p]
      modifies left, right, up, down, size
      ensures Arrays() && Links() == ms[p + 1] && next == RowNth(j, 1)
    {
      assert StepAt(ms, ls, hs, p);
      Cover(column[j], ls[p]);
      CoverRowsWhole(ms[p], ls[p], column[j]);
      RowStep(ls[p + 1], j);
      next := right[j];
    }

    /** The backtracking loop of `search` (src/dlx.js:174-176), on row node r: uncovers the
        columns hs of the other nodes of r right to left, taking the links back through the
        stages ms (with lists ls) that CoverOthers went through. */
    method UncoverOthers(r: int, ghost ms: seq<Links>, ghost ls: seq<Lists>, ghost hs: seq<int>)
      requires Arrays() && RowChoice(r, hs) && Staged(ms, ls, hs) && Links() == ms[3]
      requires Wf(ms[3], ls[3])
      modifies left, right, up, down, size
      ensures Arrays() && Links() == ms[0]
    {
      RowStep(ls[3], r);
      RowWithin(count, r);
      var j := left[r];
      ghost var p := 3;
      RowNthCycle(r, 3);
      while j != r
        invariant Arrays() && RowChoice(r, hs) && 0 <= p <= 3 && Links() == ms[p]
        invariant j == RowNth(r, p) && (j == r <==> p == 0)
        decreases p
      {
        assert column[j] == hs[p - 1];
        j := UncoverOther(j, ms, ls, hs, p);
        RowNthCompose(r, p, 3);
        RowNthCycle(r, p - 1);
        p := p - 1;
      }
    }

    /** One pass of that loop: `uncoverColumn(j.column)`, which takes the links back from
        stage p to stage p - 1, then on to `j.left`. */
    method UncoverOther(j: int, ghost ms: seq<Links>, ghost ls: seq<Lists>, ghost hs: seq<int>, ghost p: int)
      returns (next: int)
      requires Arrays() && Staged(ms, ls, hs) && 0 < p <= |hs| && Links() == ms[p]
      requires FirstRow <= j < count && column[j] == hs[p - 1]
      modifies left, right, up, down, size
      ensures Arrays() && Links() == ms[p - 1] && next == RowNth(j, 3)
    {
      assert StepAt(ms, ls, hs, p - 1);
      Uncover(column[j], ms[p - 1], ls[p - 1]);
      RowStep(ls[p - 1], j);
      next := left[j];
    }

    /** `solve()` (src/dlx.js:183-191), run on the matrix Initialize built: when `search`
        finds an exact cover, the digits of the chosen candidates are written into the
        result grid, first to last, and the grid returned is a solution of the puzzle that
        keeps its given digits; otherwise there is no result and nothing has changed. */
    method Solve(ghost a: Lists) returns (result: Option<Grid>)
      requires Ready(a) && a.active == AllColumns() && solution == []
      modifies left, right, up, down, size, this`solution, this`resultGrid
      ensures IsGrid(old(resultGrid))
      ensures result.Some? ==> IsSolution(old(resultGrid), result.value) && resultGrid == result.value
      ensures result.Some? ==> ExactCover(solution) && result.value == Fill(old(resultGrid), solution)
      ensures result.None? ==> Links() == old(Links()) && solution == [] && resultGrid == old(resultGrid)
    {
      var found := Search(a);
      if !found {
        return None;
      }
      ghost var g := resultGrid;
      assert solution[0..] == solution;
      SolvesAll(solution);
      assert ExactCover(solution);
      WriteTrail();
      ExactCoverSolves(g, solution);
      result := Some(resultGrid);
    }

    /** The `forEach` of `solve` (src/dlx.js:186-188): the digit of every candidate on the
        stack is written into the result grid, first to last. */
    method WriteTrail()
      requires Shaped(resultGrid) && forall j :: 0 <= j < |solution| ==> InRange(solution[j])
      modifies this`resultGrid
      ensures resultGrid == Fill(old(resultGrid), solution)
    {
      ghost var g := resultGrid;
      var k := 0;
      while k < |solution|
        invariant 0 <= k <= |solution| && resultGrid == Fill(g, solution[..k])
      {
        var x := solution[k];
        assert solution[..k + 1][..k] == solution[..k];
        resultGrid := resultGrid[x.r := resultGrid[x.r][x.c := x.num]];
        k := k + 1;
      }
      assert solution[..k] == solution;
    }

    /** `search` (src/dlx.js:146-181), with a the lists the links hold: when it finds an
        exact cover it has pushed, above what was on the stack, candidates that meet every
        active column exactly once; when it does not, it leaves the links and the stack as
        it found them. */
    method Search(ghost a: Lists) returns (found: bool)
      requires Ready(a)
      modifies left, right, up, down, size, this`solution
      decreases |a.active|, 3
      ensures Arrays()
      ensures !found ==> Links() == old(Links()) && solution == old(solution)
      ensures found ==> Extends(old(solution), solution, a.active, resultGrid)
      ensures a.active == [] ==> found && solution == old(solution) && Links() == old(Links())
    {
      HeaderListEmpty(Links(), a);
      if right[Root] == Root {
        assert solution[|solution|..] == [];
        return true;
      }
      var c;
      ghost var ci;
      c, ci := ChooseColumn(a);
      found := TryColumn(c, a);
    }

    /** The body of `search` once it has chosen the active column c (src/dlx.js:158-180):
        cover c, try its rows, and when none leads to an exact cover, uncover c again. */
    method TryColumn(c: int, ghost a: Lists) returns (found: bool)
      requires Ready(a) && c in a.active
      modifies left, right, up, down, size, this`solution
      decreases |a.active|, 2
      ensures Arrays()
      ensures !found ==> Links() == old(Links()) && solution == old(solution)
      ensures found ==> Extends(old(solution), solution, a.active, resultGrid)
    {
      ghost var m := Links();
      Cover(c, a);
      found := TryRows(c, a, m);
      if !found {
        Uncover(c, m, a);
      }
    }

    /** The row loop of `search` (src/dlx.js:160-177) over the covered column c, top to
        bottom: stops at the first row that leads to an exact cover; when none does, the
        links and the stack are as they were. */
    method TryRows(c: int, ghost a: Lists, ghost m: Links) returns (found: bool)
      requires Arrays() && Wf(m, a) && RowsWhole(m, a) && c in a.active
      requires Links() == CoverLinks(m, a.cols[c], c) && Carrying()
      modifies left, right, up, down, size, this`solution
      decreases |a.active|, 1
      ensures Arrays()
      ensures !found ==> Links() == old(Links()) && solution == old(solution)
      ensures found ==> Extends(old(solution), solution, a.active, resultGrid)
    {
      ghost var s := a.cols[c];
      CoveredColumnDown(m, a, c);
      var r := down[c];
      ghost var k := 0;
      while r != c
        invariant Arrays() && Links() == CoverLinks(m, s, c) && solution == old(solution)
        invariant Carrying()
        invariant 0 <= k <= |s| && r == (s + [c])[k]
        decreases |s| - k
      {
        WalkEnds(s, count, c, k);
        found := TryRow(r, c, a, m);
        if found {
          return;
        }
        assert Links().D[r] == (s + [c])[k + 1];
        r := down[r];
        k := k + 1;
      }
      found := false;
    }

    /** One pass of the row loop of `search` (src/dlx.js:160-177) on row node r of column c,
        which was covered from the links m with lists a: pushes r's candidate, covers the
        row's other columns, searches on, and on failure pops the candidate and uncovers
        those columns again in reverse order, keeping r as the row node to continue from. */
    method TryRow(r: int, c: int, ghost a: Lists, ghost m: Links) returns (found: bool)
      requires Arrays() && Wf(m, a) && RowsWhole(m, a) && c in a.active && r in a.cols[c]
      requires Links() == CoverLinks(m, a.cols[c], c)
      requires Carrying()
      modifies left, right, up, down, size, this`solution
      decreases |a.active|, 0
      ensures Arrays()
      ensures !found ==> Links() == old(Links()) && solution == old(solution)
      ensures found ==> Extends(old(solution), solution, a.active, resultGrid)
    {
      assert column[..count] == Links().C == m.C;
      ghost var ms, ls, hs := RowPlan(m, a, c, r, data[..count], resultGrid);
      ghost var before := solution;
      found := Descend(r, data[r], ms, ls, hs);
      if found {
        ExtendsPush(before, data[r], solution, a.active, ls[3].active, resultGrid);
      }
    }

    /** Taking row r into the partial solution: record its candidate, cover the columns hs
        of its other nodes, search on; on failure drop the candidate again and uncover hs in
        reverse order (src/dlx.js:161-176). */
    method Descend(r: int, ghost x: Candidate, ghost ms: seq<Links>, ghost ls: seq<Lists>, ghost hs: seq<int>)
      returns (found: bool)
      requires Arrays() && RowChoice(r, hs) && Staged(ms, ls, hs) && Links() == ms[0]
      requires Wf(ms[3], ls[3]) && RowsWhole(ms[3], ls[3]) && Carrying() && x == data[r]
      modifies left, right, up, down, size, this`solution
      decreases |ls[3].active|, 4
      ensures Arrays()
      ensures !found ==> Links() == old(Links()) && solution == old(solution)
      ensures found ==> Extends(old(solution) + [x], solution, ls[3].active, resultGrid)
    {
      solution := solution + [data[r]];
      CoverOthers(r, ms, ls, hs);
      found := Search(ls[3]);
      if found {
        return;
      }
      solution := solution[..|solution| - 1];
      UncoverOthers(r, ms, ls, hs);
    }
  }
}
