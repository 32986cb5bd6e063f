/** The toroidal matrix of the solver as an arena of integer node ids, and the pure
    specification of its link surgery.

    Node 0 is the root header, nodes 1 .. 324 are the column headers (column name i is
    node i + 1), and every candidate row occupies four consecutive ids from 325 on, in the
    order its nodes are created. `L`, `R`, `U`, `D` and `C` are the `left`, `right`, `up`,
    `down` and `column` pointers of every node, `S` the `size` of every header.

    The ghost view `Lists` says which list each header heads: `active` the column headers
    on the root's right-list, `cols[h]` the row nodes on header h's down-list. */
module Dancing {
  import opened CircularLists

  const Root := 0
  /** Number of constraint columns; their headers are nodes 1 .. 324. */
  const ColumnCount := 324
  /** Id of the first row node; also the number of header nodes. */
  const FirstRow := 325

  datatype Links6<T> = Links(L: T, R: T, U: T, D: T, C: T, S: T)
  type Links = Links6<seq<int>>

  datatype Lists = Lists(active: seq<int>, cols: seq<seq<int>>)

  // ---------------------------------------------------------------------------------------
  // Rows of four consecutive nodes

  /** Index of n's row among the candidate rows, in creation order. */
  function Row(n: int): (k: int)
    requires FirstRow <= n
    ensures 0 <= k && FirstRow + 4 * k <= n < FirstRow + 4 * k + 4
  {
    (n - FirstRow) / 4
  }

  /** Position of a row node within its row: 0 for the node linked first. */
  function Slot(n: int): (q: int)
    requires FirstRow <= n
    ensures 0 <= q < 4 && n == FirstRow + 4 * Row(n) + q
  {
    n - FirstRow - 4 * Row(n)
  }

  /** The id of the node at position q of row k. */
  function NodeAt(k: int, q: int): (n: int)
    requires 0 <= k && 0 <= q < 4
    ensures FirstRow <= n && Row(n) == k && Slot(n) == q
  {
    FirstRow + 4 * k + q
  }

  /** v modulo 4, for 0 <= v < 12. */
  function Wrap(v: int): (w: int)
    requires 0 <= v < 12
    ensures 0 <= w < 4 && (w == v || w == v - 4 || w == v - 8)
  {
    if v < 4 then v else if v < 8 then v - 4 else v - 8
  }

  /** The node q steps to the right of n along its circular row. */
  function RowNth(n: int, q: int): (x: int)
    requires FirstRow <= n && 0 <= q < 8
    ensures FirstRow <= x && Row(x) == Row(n) && Slot(x) == Wrap(Slot(n) + q)
  {
    NodeAt(Row(n), Wrap(Slot(n) + q))
  }

  lemma RowNthCompose(n: int, a: int, b: int)
    requires FirstRow <= n && 0 <= a < 4 && 0 <= b < 4
    ensures RowNth(RowNth(n, a), b) == RowNth(n, a + b)
  {
  }

  /** Walking a row comes back to the start exactly after zero or four steps. */
  lemma RowNthCycle(n: int, q: int)
    requires FirstRow <= n && 0 <= q < 8
    ensures RowNth(n, q) == n <==> q == 0 || q == 4
  {
  }

  /** Two nodes of one row are a whole number of steps apart. */
  lemma SameRow(n: int, x: int)
    requires FirstRow <= n && FirstRow <= x && Row(n) == Row(x)
    ensures x == RowNth(n, Wrap(Slot(x) - Slot(n) + 4))
  {
  }

  /** An arena of N nodes holds whole rows only. */
  predicate RowsFit(N: int) {
    FirstRow <= N && (N - FirstRow) % 4 == 0
  }

  lemma RowsFitAt(k: nat)
    ensures RowsFit(FirstRow + 4 * k)
  {
  }

  // ---------------------------------------------------------------------------------------
  // The arena

  predicate Within(s: seq<int>, lo: int, hi: int) {
    forall n :: 0 <= n < |s| ==> lo <= s[n] < hi
  }

  /** Every pointer names a node and every column pointer names a header. */
  predicate Arena(m: Links) {
    var N := |m.C|;
    FirstRow <= N && RowsFit(N) &&
      |m.L| == N && |m.R| == N && |m.U| == N && |m.D| == N && |m.S| == FirstRow &&
      Within(m.L, 0, N) && Within(m.R, 0, N) && Within(m.U, 0, N) && Within(m.D, 0, N) &&
      Within(m.C, 0, FirstRow)
  }

  /** A node's vertical neighbours belong to its own column. */
  predicate ColumnClosed(m: Links)
    requires Arena(m)
  {
    forall n :: 0 <= n < |m.C| ==> m.C[m.U[n]] == m.C[n] && m.C[m.D[n]] == m.C[n]
  }

  // ---------------------------------------------------------------------------------------
  // Link surgery, one function per statement group of the source, in its statement order

  /** Unlinks row node j from its column (`j.down.up = j.up; j.up.down = j.down;
      j.column.size--`). */
  function SpliceOut(m: Links, j: int): (r: Links)
    requires Arena(m) && 0 <= j < |m.C|
    ensures Arena(r) && r.L == m.L && r.R == m.R && r.C == m.C
  {
    var U1 := m.U[m.D[j] := m.U[j]];
    var D1 := m.D[U1[j] := m.D[j]];
    m.(U := U1, D := D1, S := m.S[m.C[j] := m.S[m.C[j]] - 1])
  }

  /** Links row node j back into its column (`j.column.size++; j.down.up = j;
      j.up.down = j`). */
  function SpliceIn(m: Links, j: int): (r: Links)
    requires Arena(m) && 0 <= j < |m.C|
    ensures Arena(r) && r.L == m.L && r.R == m.R && r.C == m.C
  {
    var S1 := m.S[m.C[j] := m.S[m.C[j]] + 1];
    var U1 := m.U[m.D[j] := j];
    var D1 := m.D[U1[j] := j];
    m.(U := U1, D := D1, S := S1)
  }

  /** Unlinks header c from the root's list (`c.right.left = c.left; c.left.right = c.right`). */
  function HeaderOut(m: Links, c: int): (r: Links)
    requires Arena(m) && 0 <= c < |m.C|
    ensures Arena(r) && r.U == m.U && r.D == m.D && r.C == m.C && r.S == m.S
  {
    var L1 := m.L[m.R[c] := m.L[c]];
    var R1 := m.R[L1[c] := m.R[c]];
    m.(L := L1, R := R1)
  }

  /** Links header c back into the root's list (`c.right.left = c; c.left.right = c`). */
  function HeaderIn(m: Links, c: int): (r: Links)
    requires Arena(m) && 0 <= c < |m.C|
    ensures Arena(r) && r.U == m.U && r.D == m.D && r.C == m.C && r.S == m.S
  {
    var L1 := m.L[m.R[c] := c];
    var R1 := m.R[L1[c] := c];
    m.(L := L1, R := R1)
  }

  predicate Nodes(m: Links, t: seq<int>) {
    forall k :: 0 <= k < |t| ==> 0 <= t[k] < |m.C|
  }

  /** Every member of s is a row node of an arena of N nodes. */
  predicate RowNodes(s: seq<int>, N: int) {
    forall k :: 0 <= k < |s| ==> FirstRow <= s[k] < N
  }

  /** Unlinks the nodes of t from their columns, first to last. */
  function FoldOut(m: Links, t: seq<int>): (r: Links)
    requires Arena(m) && Nodes(m, t)
    ensures Arena(r) && r.L == m.L && r.R == m.R && r.C == m.C
    decreases |t|
  {
    if |t| == 0 then m else SpliceOut(FoldOut(m, t[..|t| - 1]), t[|t| - 1])
  }

  /** Links the nodes of t back into their columns, last to first. */
  function FoldIn(m: Links, t: seq<int>): (r: Links)
    requires Arena(m) && Nodes(m, t)
    ensures Arena(r) && r.L == m.L && r.R == m.R && r.C == m.C
    decreases |t|
  {
    if |t| == 0 then m else FoldIn(SpliceIn(m, t[|t| - 1]), t[..|t| - 1])
  }

  /** Unlinking or relinking a node keeps every node's vertical neighbours in its column. */
  lemma SpliceOutClosed(m: Links, j: int)
    requires Arena(m) && ColumnClosed(m) && 0 <= j < |m.C|
    ensures ColumnClosed(SpliceOut(m, j))
  {
  }

  lemma SpliceInClosed(m: Links, j: int)
    requires Arena(m) && ColumnClosed(m) && 0 <= j < |m.C|
    ensures ColumnClosed(SpliceIn(m, j))
  {
  }

  lemma {:induction false} FoldOutClosed(m: Links, t: seq<int>)
    requires Arena(m) && ColumnClosed(m) && Nodes(m, t)
    ensures ColumnClosed(FoldOut(m, t))
    decreases |t|
  {
    if |t| > 0 {
      FoldOutClosed(m, t[..|t| - 1]);
      SpliceOutClosed(FoldOut(m, t[..|t| - 1]), t[|t| - 1]);
    }
  }

  lemma {:induction false} FoldInClosed(m: Links, t: seq<int>)
    requires Arena(m) && ColumnClosed(m) && Nodes(m, t)
    ensures ColumnClosed(FoldIn(m, t))
    decreases |t|
  {
    if |t| > 0 {
      SpliceInClosed(m, t[|t| - 1]);
      FoldInClosed(SpliceIn(m, t[|t| - 1]), t[..|t| - 1]);
    }
  }

  /** The other three nodes of row node i, left to right starting after i. */
  function Others(i: int): seq<int>
    requires FirstRow <= i
  {
    [RowNth(i, 1), RowNth(i, 2), RowNth(i, 3)]
  }

  /** The nodes `cover` unlinks for the rows s of a column, in the order it visits them:
      row by row down the column, and in each row rightwards from the row's node in the
      column. */
  function Trail(s: seq<int>): (t: seq<int>)
    requires forall k :: 0 <= k < |s| ==> FirstRow <= s[k]
    ensures |t| == 3 * |s|
  {
    if |s| == 0 then [] else Others(s[0]) + Trail(s[1..])
  }

  /** Step q of row s[j] sits at position 3 * j + q - 1 of the trail. */
  lemma {:induction false} TrailAt(s: seq<int>, j: int, q: int)
    requires forall k :: 0 <= k < |s| ==> FirstRow <= s[k]
    requires 0 <= j < |s| && 1 <= q < 4
    ensures 3 * j + q - 1 < |Trail(s)| && Trail(s)[3 * j + q - 1] == RowNth(s[j], q)
  {
    var t := Trail(s);
    assert t == Others(s[0]) + Trail(s[1..]);
    if j == 0 {
      assert t[q - 1] == Others(s[0])[q - 1];
    } else {
      TrailAt(s[1..], j - 1, q);
      assert t[3 * j + q - 1] == Trail(s[1..])[3 * (j - 1) + q - 1];
    }
  }

  /** Position k of the trail is step k % 3 + 1 along row k / 3. */
  lemma {:induction false} TrailIndex(s: seq<int>, k: int)
    requires forall k :: 0 <= k < |s| ==> FirstRow <= s[k]
    requires 0 <= k < |Trail(s)|
    ensures 0 <= k / 3 < |s| && Trail(s)[k] == RowNth(s[k / 3], k % 3 + 1)
  {
    TrailAt(s, k / 3, k % 3 + 1);
    assert k == 3 * (k / 3) + (k % 3 + 1) - 1;
  }

  /** The trail of rows of an arena stays inside the arena. */
  lemma {:induction false} TrailNodes(s: seq<int>, N: int)
    requires RowsFit(N) && RowNodes(s, N)
    ensures RowNodes(Trail(s), N)
  {
    forall k | 0 <= k < |Trail(s)|
      ensures FirstRow <= Trail(s)[k] < N
    {
      TrailIndex(s, k);
      RowWithin(N, s[k / 3]);
    }
  }

  // ---------------------------------------------------------------------------------------
  // Well-formedness

  /** Every header is its own column (`this.column = this`), the root included. */
  predicate Headers(m: Links)
    requires Arena(m)
  {
    forall h :: 0 <= h < FirstRow ==> m.C[h] == h
  }

  /** Every row is a circular right-list of its four nodes, each in a constraint column,
      no two of them in the same column. */
  predicate Rows(m: Links)
    requires Arena(m)
  {
    (forall n {:trigger m.R[n]} {:trigger m.L[n]} :: FirstRow <= n < |m.C| ==>
       m.R[n] == RowNth(n, 1) && m.L[n] == RowNth(n, 3)) &&
    (forall n {:trigger m.C[n]} :: FirstRow <= n < |m.C| ==> 1 <= m.C[n]) &&
    (forall n, q {:trigger RowNth(n, q)} :: FirstRow <= n < |m.C| && 1 <= q < 4 ==> m.C[RowNth(n, q)] != m.C[n])
  }

  /** Header h's down-list holds the row nodes s, top to bottom, and its size is their
      number. */
  predicate Column(m: Links, h: int, s: seq<int>)
    requires |m.S| == FirstRow && 0 <= h < FirstRow
  {
    Encodes(m.D, m.U, h, s) && Distinct(s) && m.S[h] == |s| &&
    forall k :: 0 <= k < |s| ==> FirstRow <= s[k] < |m.C| && m.C[s[k]] == h
  }

  /** The root's right-list holds the column headers `a.active`, left to right. */
  predicate HeaderList(m: Links, active: seq<int>)
    requires Arena(m)
  {
    Encodes(m.R, m.L, Root, active) && Distinct(active) &&
    forall k :: 0 <= k < |active| ==> 1 <= active[k] < FirstRow
  }

  predicate ColumnLists(m: Links, cols: seq<seq<int>>)
    requires Arena(m)
  {
    |cols| == FirstRow && forall h :: 0 <= h < FirstRow ==> Column(m, h, cols[h])
  }

  /** The links of m are the lists a. */
  predicate Wf(m: Links, a: Lists) {
    var wf := Arena(m) && Headers(m) && ColumnClosed(m) && Rows(m) && HeaderList(m, a.active) && ColumnLists(m, a.cols);
    wf
  }

  /** In well-formed links a row node's left and right neighbours are the nodes before
      and after it in its row. */
  lemma RowLinks(m: Links, a: Lists, n: int)
    requires Wf(m, a) && FirstRow <= n < |m.C|
    ensures m.R[n] == RowNth(n, 1) && m.L[n] == RowNth(n, 3)
  {
  }

  /** Walking down column c from its header visits its rows in list order and comes back
      to the header. */
  lemma ColumnDown(m: Links, a: Lists, c: int)
    requires Wf(m, a) && 1 <= c < FirstRow
    ensures RowNodes(a.cols[c], |m.C|) && m.D[c] == (a.cols[c] + [c])[0]
    ensures forall k :: 0 <= k < |a.cols[c]| ==> m.D[a.cols[c][k]] == (a.cols[c] + [c])[k + 1]
  {
    var s := a.cols[c];
    assert Column(m, c, s);
    forall k | 0 <= k < |s|
      ensures m.D[s[k]] == (s + [c])[k + 1]
    {
      assert m.D[s[k]] == if k + 1 < |s| then s[k + 1] else c;
    }
  }

  /** Once the active column c is covered, its own vertical list is untouched: walking down
      from c meets its row nodes top to bottom and comes back to c. */
  lemma CoveredColumnDown(m: Links, a: Lists, c: int)
    requires Wf(m, a) && RowsWhole(m, a) && c in a.active
    ensures 1 <= c < FirstRow && RowNodes(a.cols[c], |m.C|)
    ensures var ml, s := CoverLinks(m, a.cols[c], c), a.cols[c];
      |ml.D| == |m.C| && ml.D[c] == (s + [c])[0] &&
      forall k :: 0 <= k < |s| ==> ml.D[(s + [c])[k]] == (s + [c])[k + 1]
  {
    CoverRowsWhole(m, a, c);
    CoverKeepsColumn(m, a, c);
    var s := a.cols[c];
    ColumnDown(CoverLinks(m, s, c), CoverLists(a, c), c);
    forall k | 0 <= k < |s|
      ensures (s + [c])[k] == s[k]
    {
    }
  }

  /** The root points to itself exactly when no column is left. */
  lemma HeaderListEmpty(m: Links, a: Lists)
    requires Wf(m, a)
    ensures m.R[Root] == Root <==> a.active == []
  {
    assert HeaderList(m, a.active);
  }

  /** Node n hangs on its own column's list, and that column is active. */
  predicate Hangs(m: Links, a: Lists, n: int)
    requires Arena(m) && |a.cols| == FirstRow && 0 <= n < |m.C|
  {
    m.C[n] in a.active && n in a.cols[m.C[n]]
  }

  /** Every node of row node n's row hangs. */
  predicate WholeRow(m: Links, a: Lists, n: int)
    requires Arena(m) && |a.cols| == FirstRow && FirstRow <= n
  {
    forall q :: 0 <= q < 4 && RowNth(n, q) < |m.C| ==>
      m.C[RowNth(n, q)] in a.active && RowNth(n, q) in a.cols[m.C[RowNth(n, q)]]
  }

  /** A row with one node hanging hangs whole. */
  predicate RowsWhole(m: Links, a: Lists)
    requires Arena(m) && |a.cols| == FirstRow
  {
    forall n {:trigger Hangs(m, a, n)} :: FirstRow <= n < |m.C| && Hangs(m, a, n) ==> WholeRow(m, a, n)
  }

  // ---------------------------------------------------------------------------------------
  // Cover and uncover

  /** The column lists with the nodes t taken off. */
  function DropCols(cols: seq<seq<int>>, t: seq<int>): (r: seq<seq<int>>)
    ensures |r| == |cols|
  {
    seq(|cols|, h requires 0 <= h < |cols| => Without(cols[h], t))
  }

  /** `cover(c)`: the lists without header c and without every other node of every row
      of column c. */
  function CoverLists(a: Lists, c: int): Lists
    requires 0 <= c < |a.cols| && forall k :: 0 <= k < |a.cols[c]| ==> FirstRow <= a.cols[c][k]
  {
    Lists(Without(a.active, [c]), DropCols(a.cols, Trail(a.cols[c])))
  }

  /** The links after `cover(c)` (src/dlx.js:119-130), where s are the rows of column c. */
  function CoverLinks(m: Links, s: seq<int>, c: int): Links
    requires Arena(m) && 0 <= c < |m.C| && RowNodes(s, |m.C|)
  {
    TrailNodes(s, |m.C|);
    FoldOut(HeaderOut(m, c), Trail(s))
  }

  /** The links after `uncover(c)` (src/dlx.js:133-143), where s are the rows of column c:
      the nodes of the rows are linked back bottom row first, right to left in each row,
      and then the header. */
  function UncoverLinks(m: Links, s: seq<int>, c: int): Links
    requires Arena(m) && 0 <= c < |m.C| && RowNodes(s, |m.C|)
  {
    TrailNodes(s, |m.C|);
    HeaderIn(FoldIn(m, Trail(s)), c)
  }

  // ---------------------------------------------------------------------------------------
  // Frames

  /** Well-formedness of the column lists and of the rows reads only what it names. */
  lemma VerticalFrame(m: Links, m': Links, cols: seq<seq<int>>)
    requires Arena(m) && Arena(m') && Headers(m) && ColumnClosed(m) && ColumnLists(m, cols)
    requires m'.C == m.C && m'.U == m.U && m'.D == m.D && m'.S == m.S
    ensures Headers(m') && ColumnClosed(m') && ColumnLists(m', cols)
  {
  }

  lemma RowsFrame(m: Links, m': Links)
    requires Arena(m) && Arena(m') && Rows(m) && m'.C == m.C
    requires forall n :: FirstRow <= n < |m.C| ==> m'.L[n] == m.L[n] && m'.R[n] == m.R[n]
    ensures Rows(m')
  {
  }

  // ---------------------------------------------------------------------------------------
  // One splice at a time

  /** Unlinking a member of a column's list removes exactly that member from the list and
      decreases the column's size by one. */
  lemma {:induction false} ColumnSpliceOut(m: Links, h: int, s: seq<int>, x: int)
    requires Arena(m) && 0 <= h < FirstRow && Column(m, h, s) && x in s
    ensures Column(SpliceOut(m, x), h, Without(s, [x]))
  {
    var p :| 0 <= p < |s| && s[p] == x;
    EncodesSpliceOut(m.D, m.U, h, s, p);
    WithoutAt(s, p);
    WithoutDistinct(s, [x]);
    MembersWithout(m, h, s, x);
  }

  lemma {:induction false} MembersWithout(m: Links, h: int, s: seq<int>, x: int)
    requires forall k :: 0 <= k < |s| ==> FirstRow <= s[k] < |m.C| && m.C[s[k]] == h
    ensures forall k :: 0 <= k < |Without(s, [x])| ==>
      FirstRow <= Without(s, [x])[k] < |m.C| && m.C[Without(s, [x])[k]] == h
  {
    var s' := Without(s, [x]);
    forall k | 0 <= k < |s'|
      ensures FirstRow <= s'[k] < |m.C| && m.C[s'[k]] == h
    {
      assert s'[k] in s';
    }
  }

  /** Unlinking a node leaves the lists of the other columns alone. */
  lemma ColumnSpliceOutFrame(m: Links, h: int, s: seq<int>, x: int)
    requires Arena(m) && 0 <= h < FirstRow && Column(m, h, s) && 0 <= x < |m.C|
    requires m.C[h] == h && m.C[x] != h && m.C[m.U[x]] == m.C[x] && m.C[m.D[x]] == m.C[x]
    ensures Column(SpliceOut(m, x), h, s)
  {
    var m' := SpliceOut(m, x);
    forall k | 0 <= k < |s|
      ensures m'.D[s[k]] == m.D[s[k]] && m'.U[s[k]] == m.U[s[k]]
    {
      assert m.C[s[k]] == h;
    }
    EncodesFrame(m.D, m.U, m'.D, m'.U, h, s);
  }

  /** Unlinking a member of its column's list changes that list only. */
  lemma ColumnListsSpliceOut(m: Links, cols: seq<seq<int>>, x: int)
    requires Arena(m) && Headers(m) && ColumnClosed(m) && ColumnLists(m, cols)
    requires FirstRow <= x < |m.C| && x in cols[m.C[x]]
    ensures ColumnLists(SpliceOut(m, x), cols[m.C[x] := Without(cols[m.C[x]], [x])])
  {
    var h := m.C[x];
    var cols' := cols[h := Without(cols[h], [x])];
    forall h' | 0 <= h' < FirstRow
      ensures Column(SpliceOut(m, x), h', cols'[h'])
    {
      if h' == h {
        ColumnSpliceOut(m, h, cols[h], x);
      } else {
        ColumnSpliceOutFrame(m, h', cols[h'], x);
      }
    }
  }

  /** Unlinking an active header from the root's list removes exactly that header from
      the list. */
  lemma HeaderListOut(m: Links, a: Lists, c: int)
    requires Arena(m) && HeaderList(m, a.active) && c in a.active
    ensures HeaderList(HeaderOut(m, c), Without(a.active, [c]))
  {
    var p :| 0 <= p < |a.active| && a.active[p] == c;
    EncodesSpliceOut(m.R, m.L, Root, a.active, p);
    WithoutAt(a.active, p);
    WithoutDistinct(a.active, [c]);
    HeadersWithout(a.active, c);
  }

  lemma {:induction false} HeadersWithout(active: seq<int>, c: int)
    requires forall k :: 0 <= k < |active| ==> 1 <= active[k] < FirstRow
    ensures forall k :: 0 <= k < |Without(active, [c])| ==> 1 <= Without(active, [c])[k] < FirstRow
  {
    var s' := Without(active, [c]);
    forall k | 0 <= k < |s'|
      ensures 1 <= s'[k] < FirstRow
    {
      assert s'[k] in s';
    }
  }

  lemma HeaderOutColumns(m: Links, a: Lists, c: int)
    requires Wf(m, a) && c in a.active
    ensures Headers(HeaderOut(m, c)) && ColumnClosed(HeaderOut(m, c))
    ensures ColumnLists(HeaderOut(m, c), a.cols)
  {
    VerticalFrame(m, HeaderOut(m, c), a.cols);
  }

  lemma HeaderOutRows(m: Links, a: Lists, c: int)
    requires Wf(m, a) && c in a.active
    ensures Rows(HeaderOut(m, c))
  {
    assert m.R[c] < FirstRow && m.L[c] < FirstRow;
    RowsFrame(m, HeaderOut(m, c));
  }

  /** Unlinking an active header keeps the links well formed. */
  lemma HeaderOutStep(m: Links, a: Lists, c: int)
    requires Wf(m, a) && c in a.active
    ensures Wf(HeaderOut(m, c), a.(active := Without(a.active, [c])))
  {
    HeaderListOut(m, a, c);
    HeaderOutColumns(m, a, c);
    HeaderOutRows(m, a, c);
  }

  // ---------------------------------------------------------------------------------------
  // The trail of a cover

  /** Two nodes of one row never share a column. */
  lemma SameColumnSameRow(m: Links, n: int, x: int)
    requires Arena(m) && Rows(m) && FirstRow <= n < |m.C| && FirstRow <= x < |m.C|
    ensures Row(n) == Row(x) && m.C[n] == m.C[x] ==> n == x
  {
    if Row(n) == Row(x) {
      SameRow(n, x);
      var q := (Slot(x) - Slot(n) + 4) % 4;
      RowNthCycle(n, q);
    }
  }

  /** All members of s hang in column c. */
  predicate InColumn(m: Links, s: seq<int>, c: int)
    requires Arena(m) && RowNodes(s, |m.C|)
  {
    forall k :: 0 <= k < |s| ==> m.C[s[k]] == c
  }

  lemma {:induction false} TrailOffColumn(m: Links, c: int, s: seq<int>, k: int)
    requires Arena(m) && Rows(m) && RowNodes(s, |m.C|) && InColumn(m, s, c) && 0 <= k < |Trail(s)|
    ensures FirstRow <= Trail(s)[k] < |m.C| && m.C[Trail(s)[k]] != c
  {
    TrailIndex(s, k);
    var i, q := s[k / 3], k % 3 + 1;
    RowWithin(|m.C|, i);
    assert m.C[RowNth(i, q)] != m.C[i];
  }

  lemma {:induction false} TrailPair(m: Links, c: int, s: seq<int>, k1: int, k2: int)
    requires Arena(m) && Rows(m) && RowNodes(s, |m.C|) && InColumn(m, s, c) && Distinct(s)
    requires 0 <= k1 < k2 < |Trail(s)|
    ensures Trail(s)[k1] != Trail(s)[k2]
  {
    TrailIndex(s, k1);
    TrailIndex(s, k2);
    var i1, i2 := k1 / 3, k2 / 3;
    if i1 != i2 {
      SameColumnSameRow(m, s[i1], s[i2]);
    }
  }

  /** The nodes a cover unlinks are pairwise distinct, and none of them is in the covered
      column. */
  lemma {:induction false} TrailDistinct(m: Links, c: int, s: seq<int>)
    requires Arena(m) && Rows(m) && RowNodes(s, |m.C|) && InColumn(m, s, c) && Distinct(s)
    ensures RowNodes(Trail(s), |m.C|)
    ensures Distinct(Trail(s))
    ensures forall k :: 0 <= k < |Trail(s)| ==> m.C[Trail(s)[k]] != c
  {
    forall k | 0 <= k < |Trail(s)|
      ensures FirstRow <= Trail(s)[k] < |m.C| && m.C[Trail(s)[k]] != c
    {
      TrailOffColumn(m, c, s, k);
    }
    forall k1, k2 | 0 <= k1 < k2 < |Trail(s)|
      ensures Trail(s)[k1] != Trail(s)[k2]
    {
      TrailPair(m, c, s, k1, k2);
    }
  }

  /** What covering column c needs to know of its trail: it lies inside the arena, repeats
      no node, avoids column c, and each of its nodes hangs on its own column's list. */
  lemma CoverTrail(m: Links, a: Lists, c: int) returns (t: seq<int>)
    requires Wf(m, a) && RowsWhole(m, a) && c in a.active
    ensures t == Trail(a.cols[c]) && Spliceable(m, a.cols, t)
    ensures forall k :: 0 <= k < |t| ==> m.C[t[k]] != c
  {
    t := Trail(a.cols[c]);
    TrailDistinct(m, c, a.cols[c]);
    ColumnRowsWhole(m, a, c);
    TrailOnLists(m, a, a.cols[c]);
  }

  lemma ColumnRowsWhole(m: Links, a: Lists, c: int)
    requires Wf(m, a) && RowsWhole(m, a) && c in a.active
    ensures forall i :: 0 <= i < |a.cols[c]| ==> WholeRow(m, a, a.cols[c][i])
  {
    forall i | 0 <= i < |a.cols[c]|
      ensures WholeRow(m, a, a.cols[c][i])
    {
      assert Hangs(m, a, a.cols[c][i]);
    }
  }

  /** The trail of whole rows hangs on the column lists. */
  lemma {:induction false} TrailOnLists(m: Links, a: Lists, s: seq<int>)
    requires Arena(m) && |a.cols| == FirstRow && RowNodes(s, |m.C|)
    requires forall i :: 0 <= i < |s| ==> WholeRow(m, a, s[i])
    ensures RowNodes(Trail(s), |m.C|)
    ensures forall k :: 0 <= k < |Trail(s)| ==> Trail(s)[k] in a.cols[m.C[Trail(s)[k]]]
  {
    TrailNodes(s, |m.C|);
    forall k | 0 <= k < |Trail(s)|
      ensures Trail(s)[k] in a.cols[m.C[Trail(s)[k]]]
    {
      TrailIndex(s, k);
      assert WholeRow(m, a, s[k / 3]);
    }
  }

  /** A node is on no list but its own column's. */
  lemma OnlyOwnColumn(m: Links, cols: seq<seq<int>>, x: int)
    requires Arena(m) && ColumnLists(m, cols) && 0 <= x < |m.C|
    ensures forall h :: 0 <= h < FirstRow && h != m.C[x] ==> x !in cols[h]
  {
  }

  /** Taking one more node x off the lists only changes the list of x's own column h. */
  lemma DropColsSnoc(cols: seq<seq<int>>, t: seq<int>, x: int, h: int)
    requires 0 <= h < |cols|
    requires forall h' :: 0 <= h' < |cols| && h' != h ==> x !in cols[h']
    ensures DropCols(cols, t + [x]) == DropCols(cols, t)[h := Without(DropCols(cols, t)[h], [x])]
  {
    var d := DropCols(cols, t);
    forall h' | 0 <= h' < |cols|
      ensures DropCols(cols, t + [x])[h'] == d[h := Without(d[h], [x])][h']
    {
      WithoutSnoc(cols[h'], t, x);
      if h' != h {
        WithoutNothing(d[h'], [x]);
      }
    }
  }

  /** Nothing taken off leaves the lists as they are. */
  lemma DropNothing(cols: seq<seq<int>>)
    ensures DropCols(cols, []) == cols
  {
    forall h | 0 <= h < |cols|
      ensures DropCols(cols, [])[h] == cols[h]
    {
      WithoutNothing(cols[h], []);
    }
  }

  /** The nodes t can be unlinked one after the other: they are row nodes, none repeats,
      and each hangs on its own column's list. */
  predicate Spliceable(m: Links, cols: seq<seq<int>>, t: seq<int>)
    requires Arena(m) && |cols| == FirstRow
  {
    RowNodes(t, |m.C|) && Distinct(t) && forall j :: 0 <= j < |t| ==> t[j] in cols[m.C[t[j]]]
  }

  lemma SpliceableLast(m: Links, cols: seq<seq<int>>, t: seq<int>)
    requires Arena(m) && |cols| == FirstRow && ColumnLists(m, cols) && Spliceable(m, cols, t) && t != []
    ensures Spliceable(m, cols, t[..|t| - 1]) && t[|t| - 1] !in t[..|t| - 1]
    ensures FirstRow <= t[|t| - 1] < |m.C| && t[|t| - 1] in cols[m.C[t[|t| - 1]]]
    ensures forall h :: 0 <= h < FirstRow && h != m.C[t[|t| - 1]] ==> t[|t| - 1] !in cols[h]
  {
    DistinctPrefix(t, |t| - 1);
    OnlyOwnColumn(m, cols, t[|t| - 1]);
  }

  lemma HeadersFrame(m: Links, m': Links)
    requires Arena(m) && Arena(m') && Headers(m) && m'.C == m.C
    ensures Headers(m')
  {
  }

  /** Unlinking spliceable nodes one after the other takes exactly those nodes off the
      column lists. */
  lemma {:induction false} FoldOutColumns(m: Links, cols: seq<seq<int>>, t: seq<int>)
    requires Arena(m) && Headers(m) && ColumnClosed(m) && ColumnLists(m, cols) && Spliceable(m, cols, t)
    ensures ColumnLists(FoldOut(m, t), DropCols(cols, t))
    decreases |t|
  {
    if t == [] {
      DropNothing(cols);
    } else {
      var t', x := t[..|t| - 1], t[|t| - 1];
      assert t == t' + [x];
      SpliceableLast(m, cols, t);
      FoldOutColumns(m, cols, t');
      var m1 := FoldOut(m, t');
      FoldOutClosed(m, t');
      HeadersFrame(m, m1);
      DropColsSnoc(cols, t', x, m.C[x]);
      ColumnListsSpliceOut(m1, DropCols(cols, t'), x);
    }
  }

  /** Unlinking nodes leaves the headers, the rows and the root's list alone. */
  lemma {:induction false} FoldOutRest(m: Links, active: seq<int>, t: seq<int>)
    requires Arena(m) && Headers(m) && Rows(m) && HeaderList(m, active) && Nodes(m, t)
    ensures Headers(FoldOut(m, t)) && Rows(FoldOut(m, t)) && HeaderList(FoldOut(m, t), active)
  {
    var m' := FoldOut(m, t);
    RowsFrame(m, m');
  }

  /** `cover(c)` of an active column keeps the links well formed, and they are then the
      lists without header c and without the other nodes of column c's rows. */
  lemma CoverWf(m: Links, a: Lists, c: int)
    requires Wf(m, a) && RowsWhole(m, a) && c in a.active
    ensures Wf(CoverLinks(m, a.cols[c], c), CoverLists(a, c))
  {
    var t := CoverTrail(m, a, c);
    HeaderOutStep(m, a, c);
    var m0 := HeaderOut(m, c);
    FoldOutColumns(m0, a.cols, t);
    FoldOutClosed(m0, t);
    FoldOutRest(m0, Without(a.active, [c]), t);
  }

  /** A node sharing a row with a node of column c's list, other than that node itself, is
      on the trail of cover(c). */
  lemma {:induction false} SharedRowInTrail(s: seq<int>, i: int, n: int)
    requires forall k :: 0 <= k < |s| ==> FirstRow <= s[k]
    requires 0 <= i < |s| && FirstRow <= n && Row(n) == Row(s[i]) && n != s[i]
    ensures n in Trail(s)
  {
    SameRow(s[i], n);
    var w := Wrap(Slot(n) - Slot(s[i]) + 4);
    RowNthCycle(s[i], 0);
    TrailAt(s, i, w);
  }

  /** A node of a row that survives cover(c) is neither in column c nor on its trail. */
  lemma StaysHanging(m: Links, a: Lists, c: int, n: int, y: int)
    requires Arena(m) && |a.cols| == FirstRow && ColumnLists(m, a.cols) && 0 <= c < FirstRow
    requires FirstRow <= n < |m.C| && FirstRow <= y < |m.C| && Row(y) == Row(n)
    requires m.C[n] != c && n !in Trail(a.cols[c]) && y in a.cols[m.C[y]]
    ensures m.C[y] != c && y !in Trail(a.cols[c])
  {
    var s := a.cols[c];
    assert Column(m, c, s);
    if m.C[y] == c {
      var i :| 0 <= i < |s| && s[i] == y;
      SharedRowInTrail(s, i, n);
      assert false;
    }
    if y in Trail(s) {
      var k :| 0 <= k < |Trail(s)| && Trail(s)[k] == y;
      TrailIndex(s, k);
      SharedRowInTrail(s, k / 3, n);
      assert false;
    }
  }

  /** cover(c) keeps every hanging row whole: a row it leaves in an active column lost none
      of its nodes. */
  lemma CoverRowsWhole(m: Links, a: Lists, c: int)
    requires Wf(m, a) && RowsWhole(m, a) && c in a.active
    ensures Wf(CoverLinks(m, a.cols[c], c), CoverLists(a, c))
    ensures RowsWhole(CoverLinks(m, a.cols[c], c), CoverLists(a, c))
  {
    CoverWf(m, a, c);
    var m', a' := CoverLinks(m, a.cols[c], c), CoverLists(a, c);
    forall n | FirstRow <= n < |m'.C| && Hangs(m', a', n)
      ensures WholeRow(m', a', n)
    {
      KeptRow(m, a, c, n);
    }
  }

  lemma KeptRow(m: Links, a: Lists, c: int, n: int)
    requires Wf(m, a) && RowsWhole(m, a) && c in a.active
    requires FirstRow <= n < |m.C| && Hangs(CoverLinks(m, a.cols[c], c), CoverLists(a, c), n)
    ensures WholeRow(CoverLinks(m, a.cols[c], c), CoverLists(a, c), n)
  {
    var T := Trail(a.cols[c]);
    var a' := CoverLists(a, c);
    assert Hangs(m, a, n);
    forall q | 0 <= q < 4 && RowNth(n, q) < |m.C|
      ensures m.C[RowNth(n, q)] in a'.active && RowNth(n, q) in a'.cols[m.C[RowNth(n, q)]]
    {
      StaysHanging(m, a, c, n, RowNth(n, q));
    }
  }

  // ---------------------------------------------------------------------------------------
  // Uncover undoes cover

  /** Relinking a node that was just unlinked from a column's list restores the links
      exactly. */
  lemma SpliceInOut(m: Links, h: int, s: seq<int>, x: int)
    requires Arena(m) && 0 <= h < FirstRow && Column(m, h, s) && x in s
    ensures SpliceIn(SpliceOut(m, x), x) == m
  {
    var p :| 0 <= p < |s| && s[p] == x;
    EncodesLocal(m.D, m.U, h, s, p);
    var m1 := SpliceOut(m, x);
    var m2 := SpliceIn(m1, x);
    assert m2.U == m.U;
    assert m2.D == m.D;
    assert m2.S == m.S;
  }

  /** Relinking a header that was just unlinked from the root's list restores the links
      exactly. */
  lemma HeaderInOut(m: Links, active: seq<int>, c: int)
    requires Arena(m) && HeaderList(m, active) && c in active
    ensures HeaderIn(HeaderOut(m, c), c) == m
  {
    var p :| 0 <= p < |active| && active[p] == c;
    EncodesLocal(m.R, m.L, Root, active, p);
    var m2 := HeaderIn(HeaderOut(m, c), c);
    assert m2.L == m.L;
    assert m2.R == m.R;
  }

  /** Relinking spliceable nodes last to first after unlinking them first to last restores
      the links exactly. */
  lemma {:induction false} FoldInOut(m: Links, cols: seq<seq<int>>, t: seq<int>)
    requires Arena(m) && Headers(m) && ColumnClosed(m) && ColumnLists(m, cols) && Spliceable(m, cols, t)
    ensures FoldIn(FoldOut(m, t), t) == m
    decreases |t|
  {
    if t != [] {
      var t', x := t[..|t| - 1], t[|t| - 1];
      SpliceableLast(m, cols, t);
      FoldOutColumns(m, cols, t');
      var m1 := FoldOut(m, t');
      var h := m.C[x];
      assert Column(m1, h, DropCols(cols, t')[h]);
      SpliceInOut(m1, h, DropCols(cols, t')[h], x);
      FoldInOut(m, cols, t');
    }
  }

  /** `uncover(c)` undoes `cover(c)`: the links are exactly those before the cover. */
  lemma CoverUncover(m: Links, a: Lists, c: int)
    requires Wf(m, a) && RowsWhole(m, a) && c in a.active
    ensures UncoverLinks(CoverLinks(m, a.cols[c], c), a.cols[c], c) == m
  {
    var t := CoverTrail(m, a, c);
    HeaderOutStep(m, a, c);
    var m0 := HeaderOut(m, c);
    FoldInOut(m0, a.cols, t);
    HeaderInOut(m, a.active, c);
  }

  // ---------------------------------------------------------------------------------------
  // What the loops of cover and uncover walk on

  /** Unlinking nodes outside column c leaves the vertical links of column c alone. */
  lemma {:induction false} FoldOutKeeps(m: Links, t: seq<int>, c: int)
    requires Arena(m) && ColumnClosed(m) && Nodes(m, t) && forall k :: 0 <= k < |t| ==> m.C[t[k]] != c
    ensures forall n :: 0 <= n < |m.C| && m.C[n] == c ==> FoldOut(m, t).U[n] == m.U[n] && FoldOut(m, t).D[n] == m.D[n]
    decreases |t|
  {
    if t != [] {
      FoldOutKeeps(m, t[..|t| - 1], c);
      FoldOutClosed(m, t[..|t| - 1]);
      SpliceOutKeeps(FoldOut(m, t[..|t| - 1]), t[|t| - 1], c);
    }
  }

  lemma SpliceOutKeeps(m: Links, x: int, c: int)
    requires Arena(m) && ColumnClosed(m) && 0 <= x < |m.C| && m.C[x] != c
    ensures forall n :: 0 <= n < |m.C| && m.C[n] == c ==> SpliceOut(m, x).U[n] == m.U[n] && SpliceOut(m, x).D[n] == m.D[n]
  {
  }

  /** Relinking nodes outside column c leaves the vertical links of column c alone. */
  lemma {:induction false} FoldInKeeps(m: Links, t: seq<int>, c: int)
    requires Arena(m) && ColumnClosed(m) && Nodes(m, t) && forall k :: 0 <= k < |t| ==> m.C[t[k]] != c
    ensures forall n :: 0 <= n < |m.C| && m.C[n] == c ==> FoldIn(m, t).U[n] == m.U[n] && FoldIn(m, t).D[n] == m.D[n]
    decreases |t|
  {
    if t != [] {
      var m1 := SpliceIn(m, t[|t| - 1]);
      SpliceInKeeps(m, t[|t| - 1], c);
      SpliceInClosed(m, t[|t| - 1]);
      FoldInKeeps(m1, t[..|t| - 1], c);
    }
  }

  lemma SpliceInKeeps(m: Links, x: int, c: int)
    requires Arena(m) && ColumnClosed(m) && 0 <= x < |m.C| && m.C[x] != c
    ensures forall n :: 0 <= n < |m.C| && m.C[n] == c ==> SpliceIn(m, x).U[n] == m.U[n] && SpliceIn(m, x).D[n] == m.D[n]
  {
  }

  /** Relinking x after the nodes u is relinking [x] + u. */
  lemma {:induction false} FoldInCons(m: Links, x: int, u: seq<int>)
    requires Arena(m) && 0 <= x < |m.C| && Nodes(m, u)
    ensures FoldIn(m, [x] + u) == SpliceIn(FoldIn(m, u), x)
    decreases |u|
  {
    var xu := [x] + u;
    if u == [] {
      assert xu[..0] == [];
    } else {
      assert xu[..|xu| - 1] == [x] + u[..|u| - 1];
      FoldInCons(SpliceIn(m, u[|u| - 1]), x, u[..|u| - 1]);
    }
  }

  /** cover(c) leaves column c's own list as it was. */
  lemma CoverKeepsColumn(m: Links, a: Lists, c: int)
    requires Wf(m, a) && RowsWhole(m, a) && c in a.active
    ensures CoverLists(a, c).cols[c] == a.cols[c]
  {
    var t := CoverTrail(m, a, c);
    WithoutNothing(a.cols[c], t);
  }

  /** Unlinking three more nodes of t. */
  lemma {:induction false} FoldOutThree(m: Links, t: seq<int>, K: int)
    requires Arena(m) && Nodes(m, t) && 0 <= K && K + 3 <= |t|
    ensures FoldOut(m, t[..K + 3]) == SpliceOut(SpliceOut(SpliceOut(FoldOut(m, t[..K]), t[K]), t[K + 1]), t[K + 2])
  {
    FoldOutSnoc(m, t, K);
    FoldOutSnoc(m, t, K + 1);
    FoldOutSnoc(m, t, K + 2);
  }

  /** Linking three more nodes of t back, from the end. */
  lemma {:induction false} FoldInThree(m: Links, t: seq<int>, K: int)
    requires Arena(m) && Nodes(m, t) && 0 <= K && K + 3 <= |t|
    ensures FoldIn(m, t[K..]) == SpliceIn(SpliceIn(SpliceIn(FoldIn(m, t[K + 3..]), t[K + 2]), t[K + 1]), t[K])
  {
    FoldInNext(m, t, K + 3);
    FoldInNext(m, t, K + 2);
    FoldInNext(m, t, K + 1);
  }

  /** The part of the trail belonging to row s[k]: its three other nodes. */
  lemma {:induction false} TrailRow(s: seq<int>, k: int, K: int)
    requires forall k :: 0 <= k < |s| ==> FirstRow <= s[k]
    requires 0 <= k < |s| && K == 3 * k
    ensures K + 3 <= |Trail(s)|
    ensures Trail(s)[K] == RowNth(s[k], 1) && Trail(s)[K + 1] == RowNth(s[k], 2) && Trail(s)[K + 2] == RowNth(s[k], 3)
  {
    TrailAt(s, k, 1);
    TrailAt(s, k, 2);
    TrailAt(s, k, 3);
  }

  /** The nodes of a row of an arena lie in the arena. */
  lemma RowWithin(N: int, i: int)
    requires RowsFit(N) && FirstRow <= i < N
    ensures forall q :: 0 <= q < 8 ==> RowNth(i, q) < N
  {
    var j := (N - FirstRow) / 4;
    assert N == FirstRow + 4 * j;
    assert Row(i) < j;
  }

  /** The first p other nodes of row i unlinked, left to right: the inner loop of `cover`
      after p passes. */
  function RowOut(m: Links, i: int, p: int): (r: Links)
    requires Arena(m) && FirstRow <= i < |m.C| && 0 <= p <= 3
    ensures Arena(r) && r.L == m.L && r.R == m.R && r.C == m.C
  {
    RowWithin(|m.C|, i);
    if p == 0 then m else SpliceOut(RowOut(m, i, p - 1), RowNth(i, p))
  }

  /** The last p other nodes of row i linked back, right to left: the inner loop of
      `uncover` after p passes. */
  function RowIn(m: Links, i: int, p: int): (r: Links)
    requires Arena(m) && FirstRow <= i < |m.C| && 0 <= p <= 3
    ensures Arena(r) && r.L == m.L && r.R == m.R && r.C == m.C
  {
    RowWithin(|m.C|, i);
    if p == 0 then m else SpliceIn(RowIn(m, i, p - 1), RowNth(i, 4 - p))
  }

  lemma {:induction false} RowOutAll(m: Links, i: int)
    requires Arena(m) && FirstRow <= i < |m.C|
    ensures RowOut(m, i, 3) == SpliceOut(SpliceOut(SpliceOut(m, RowNth(i, 1)), RowNth(i, 2)), RowNth(i, 3))
  {
    RowWithin(|m.C|, i);
    assert RowOut(m, i, 1) == SpliceOut(m, RowNth(i, 1));
    assert RowOut(m, i, 2) == SpliceOut(RowOut(m, i, 1), RowNth(i, 2));
  }

  lemma {:induction false} RowInAll(m: Links, i: int)
    requires Arena(m) && FirstRow <= i < |m.C|
    ensures RowIn(m, i, 3) == SpliceIn(SpliceIn(SpliceIn(m, RowNth(i, 3)), RowNth(i, 2)), RowNth(i, 1))
  {
    RowWithin(|m.C|, i);
    assert RowIn(m, i, 1) == SpliceIn(m, RowNth(i, 3));
    assert RowIn(m, i, 2) == SpliceIn(RowIn(m, i, 1), RowNth(i, 2));
  }

  /** One more node of t unlinked. */
  lemma {:induction false} FoldOutSnoc(m: Links, t: seq<int>, p: int)
    requires Arena(m) && Nodes(m, t) && 0 <= p < |t|
    ensures FoldOut(m, t[..p + 1]) == SpliceOut(FoldOut(m, t[..p]), t[p])
  {
    assert t[..p + 1][..p] == t[..p];
  }

  /** One more node of t, counted from the end, linked back. */
  lemma {:induction false} FoldInNext(m: Links, t: seq<int>, p: int)
    requires Arena(m) && Nodes(m, t) && 0 < p <= |t|
    ensures FoldIn(m, t[p - 1..]) == SpliceIn(FoldIn(m, t[p..]), t[p - 1])
  {
    assert t[p - 1..] == [t[p - 1]] + t[p..];
    FoldInCons(m, t[p - 1], t[p..]);
  }

  /** The rows s and the other nodes of each are nodes of m. */
  predicate OnTrail(m: Links, s: seq<int>) {
    Arena(m) && RowNodes(s, |m.C|) && Nodes(m, Trail(s))
  }

  /** The links once the other nodes of the rows s[..k] are unlinked, row by row: the outer
      loop of `cover` after k passes. */
  function Unlinked(m: Links, s: seq<int>, k: int): (r: Links)
    requires Arena(m) && RowNodes(s, |m.C|) && 0 <= k <= |s|
    ensures Arena(r) && r.L == m.L && r.R == m.R && r.C == m.C
    decreases k
  {
    if k == 0 then m
    else
      RowOut(Unlinked(m, s, k - 1), s[k - 1], 3)
  }

  /** Row by row is node by node along the trail. */
  lemma {:induction false} UnlinkedTrail(m: Links, s: seq<int>, k: int)
    requires OnTrail(m, s) && 0 <= k <= |s|
    ensures Unlinked(m, s, k) == FoldOut(m, Trail(s)[..3 * k])
  {
    if k > 0 {
      UnlinkedTrail(m, s, k - 1);
      FoldOutRow(m, s, k);
    }
  }

  /** The trail of rows s[..k] is that of rows s[..k - 1] and the other nodes of row s[k - 1]. */
  lemma FoldOutRow(m: Links, s: seq<int>, k: int)
    requires OnTrail(m, s) && 0 < k <= |s|
    ensures FoldOut(m, Trail(s)[..3 * k]) == RowOut(FoldOut(m, Trail(s)[..3 * (k - 1)]), s[k - 1], 3)
  {
    var K := 3 * (k - 1);
    TrailRow(s, k - 1, K);
    assert K + 3 == 3 * k;
    FoldOutThree(m, Trail(s), K);
    RowOutAll(FoldOut(m, Trail(s)[..K]), s[k - 1]);
  }

  /** The links once the other nodes of the rows s[k..] are linked back, last node first:
      the outer loop of `uncover` after |s| - k passes, each pass linking one row back
      (RelinkedStep). */
  function Relinked(m: Links, s: seq<int>, k: int): (r: Links)
    requires Arena(m) && RowNodes(s, |m.C|) && 0 <= k <= |s|
    ensures Arena(r) && r.L == m.L && r.R == m.R && r.C == m.C
  {
    TrailNodes(s, |m.C|);
    FoldIn(m, Trail(s)[3 * k..])
  }

  /** One more pass of the outer loop of `uncover` links row s[k - 1] back, right to left. */
  lemma RelinkedStep(m: Links, s: seq<int>, k: int)
    requires Arena(m) && RowNodes(s, |m.C|) && 0 < k <= |s|
    ensures Relinked(m, s, k - 1) == RowIn(Relinked(m, s, k), s[k - 1], 3)
  {
    TrailNodes(s, |m.C|);
    FoldInRow(m, s, k - 1);
  }

  /** The trail of rows s[k..] is the other nodes of row s[k] and then the trail of rows
      s[k + 1..]. */
  lemma FoldInRow(m: Links, s: seq<int>, k: int)
    requires OnTrail(m, s) && 0 <= k < |s|
    ensures FoldIn(m, Trail(s)[3 * k..]) == RowIn(FoldIn(m, Trail(s)[3 * (k + 1)..]), s[k], 3)
  {
    var K := 3 * k;
    TrailRow(s, k, K);
    assert K + 3 == 3 * (k + 1);
    FoldInThree(m, Trail(s), K);
    RowInAll(FoldIn(m, Trail(s)[K + 3..]), s[k]);
  }


  /** Unlinking the rows s of column c, row by row, leaves the vertical links of column c
      alone, and ends where unlinking the whole trail does. */
  lemma {:induction false} UnlinkedKeeps(m: Links, s: seq<int>, c: int)
    requires OnTrail(m, s) && ColumnClosed(m)
    requires forall j :: 0 <= j < |Trail(s)| ==> m.C[Trail(s)[j]] != c
    ensures forall k, n {:trigger Unlinked(m, s, k).D[n]} :: 0 <= k <= |s| && 0 <= n < |m.C| && m.C[n] == c ==> Unlinked(m, s, k).D[n] == m.D[n]
    ensures Unlinked(m, s, |s|) == FoldOut(m, Trail(s))
  {
    var t := Trail(s);
    forall k | 0 <= k <= |s|
      ensures forall n :: 0 <= n < |m.C| && m.C[n] == c ==> Unlinked(m, s, k).D[n] == m.D[n]
    {
      UnlinkedTrail(m, s, k);
      FoldOutKeeps(m, t[..3 * k], c);
    }
    UnlinkedTrail(m, s, |s|);
    assert t[..3 * |s|] == t;
  }

  /** Relinking the rows s of column c, bottom row first, leaves the vertical links of
      column c alone, and ends where relinking the whole trail does. */
  lemma {:induction false} RelinkedKeeps(m: Links, s: seq<int>, c: int)
    requires OnTrail(m, s) && ColumnClosed(m)
    requires forall j :: 0 <= j < |Trail(s)| ==> m.C[Trail(s)[j]] != c
    ensures forall k, n {:trigger Relinked(m, s, k).U[n]} :: 0 <= k <= |s| && 0 <= n < |m.C| && m.C[n] == c ==> Relinked(m, s, k).U[n] == m.U[n]
    ensures Relinked(m, s, 0) == FoldIn(m, Trail(s))
  {
    var t := Trail(s);
    forall k | 0 <= k <= |s|
      ensures forall n :: 0 <= n < |m.C| && m.C[n] == c ==> Relinked(m, s, k).U[n] == m.U[n]
    {
      FoldInKeeps(m, t[3 * k..], c);
    }
    assert t[3 * 0..] == t;
  }

  /** What the loops of `cover(c)` rely on once header c is off the root's list, with s the
      rows of column c: the right links of all rows, and where going down column c leads
      from the header, and from row s[k - 1] once the rows s[..k] are unlinked. */
  predicate CoverReady(m: Links, c: int, s: seq<int>) {
    Arena(m) && 1 <= c < FirstRow && RowNodes(s, |m.C|) && m.D[c] == (s + [c])[0] &&
      (forall n :: FirstRow <= n < |m.C| ==> m.R[n] == RowNth(n, 1)) &&
      (forall k {:trigger Unlinked(m, s, k)} :: 0 < k <= |s| ==> Unlinked(m, s, k).D[s[k - 1]] == (s + [c])[k])
  }

  /** Walking column c from its header through its rows s, down or up, meets the header
      again exactly when the rows are used up. */
  lemma WalkEnds(s: seq<int>, N: int, c: int, k: int)
    requires RowNodes(s, N) && c < FirstRow && 0 <= k <= |s|
    ensures (s + [c])[k] == c <==> k == |s|
    ensures ([c] + s)[k] == c <==> k == 0
  {
  }

  /** Header c is off the root's list in m0, and s are the rows of column c, whose other
      nodes lie in other columns: where both loops of `cover(c)` start. */
  predicate Covering(m0: Links, c: int, s: seq<int>) {
    OnTrail(m0, s) && ColumnClosed(m0) && 1 <= c < FirstRow && m0.C[c] == c &&
      Column(m0, c, s) && (forall j :: 0 <= j < |Trail(s)| ==> m0.C[Trail(s)[j]] != c) &&
      (forall n :: FirstRow <= n < |m0.C| ==> m0.R[n] == RowNth(n, 1) && m0.L[n] == RowNth(n, 3))
  }

  lemma CoveringAt(m: Links, a: Lists, c: int)
    requires Wf(m, a) && RowsWhole(m, a) && c in a.active
    ensures Arena(m) && 0 <= c < |m.C| && RowNodes(a.cols[c], |m.C|)
    ensures Covering(HeaderOut(m, c), c, a.cols[c])
  {
    var t := CoverTrail(m, a, c);
    HeaderOutStep(m, a, c);
  }

  /** Unlinking rows of column c other than its nodes leaves its down links as its list
      says: the header leads to the top row and each row to the one below it. */
  lemma CoverSteps(m0: Links, c: int, s: seq<int>)
    requires Covering(m0, c, s)
    ensures CoverReady(m0, c, s) && Unlinked(m0, s, |s|) == FoldOut(m0, Trail(s))
  {
    UnlinkedKeeps(m0, s, c);
    forall k | 0 < k <= |s|
      ensures Unlinked(m0, s, k).D[s[k - 1]] == (s + [c])[k]
    {
      assert Unlinked(m0, s, k).D[s[k - 1]] == m0.D[s[k - 1]];
      assert m0.D[s[k - 1]] == if k < |s| then s[k] else c;
    }
  }

  lemma CoverWalk(m: Links, a: Lists, c: int)
    requires Wf(m, a) && RowsWhole(m, a) && c in a.active
    ensures Arena(m) && 0 <= c < |m.C| && RowNodes(a.cols[c], |m.C|)
    ensures CoverReady(HeaderOut(m, c), c, a.cols[c])
    ensures Unlinked(HeaderOut(m, c), a.cols[c], |a.cols[c]|) == CoverLinks(m, a.cols[c], c)
  {
    CoveringAt(m, a, c);
    CoverSteps(HeaderOut(m, c), c, a.cols[c]);
  }

  /** What the loops of `uncover(c)` rely on in the links m after `cover(c)`, with s the
      rows of column c: the left links of all rows, and where going up column c leads from
      the header, and from row s[k] once the rows s[k..] are linked back. */
  predicate UncoverReady(m: Links, c: int, s: seq<int>) {
    Arena(m) && 1 <= c < FirstRow && RowNodes(s, |m.C|) && m.U[c] == ([c] + s)[|s|] &&
      (forall n :: FirstRow <= n < |m.C| ==> m.L[n] == RowNth(n, 3)) &&
      (forall k {:trigger Relinked(m, s, k)} :: 0 <= k < |s| ==> Relinked(m, s, k).U[s[k]] == ([c] + s)[k])
  }

  /** The links mc after `cover(c)`, with s the rows of column c: going up column c still
      follows its list, and the other nodes of the rows lie in other columns. */
  predicate Uncovering(mc: Links, c: int, s: seq<int>) {
    OnTrail(mc, s) && ColumnClosed(mc) && 1 <= c < FirstRow && UpChain(mc.U, mc.C, c, s) &&
      (forall j :: 0 <= j < |Trail(s)| ==> mc.C[Trail(s)[j]] != c) &&
      (forall n :: FirstRow <= n < |mc.C| ==> mc.L[n] == RowNth(n, 3))
  }

  /** Unlinking the other nodes of the rows s of column c from m0 leaves what `uncover(c)`
      starts from. */
  lemma UncoverFrom(m0: Links, c: int, s: seq<int>)
    requires Covering(m0, c, s)
    ensures Uncovering(FoldOut(m0, Trail(s)), c, s)
  {
    var mc := FoldOut(m0, Trail(s));
    FoldOutKeeps(m0, Trail(s), c);
    FoldOutClosed(m0, Trail(s));
    ColumnUpChain(m0, c, s);
    UpChainFrame(m0.U, mc.U, m0.C, c, s);
  }

  /** Linking the rows back row by row ends where linking the whole trail back does, and
      the links are ready for the loops of `uncover(c)`. */
  lemma UncoverSteps(mc: Links, c: int, s: seq<int>)
    requires Uncovering(mc, c, s)
    ensures UncoverReady(mc, c, s) && Relinked(mc, s, 0) == FoldIn(mc, Trail(s))
  {
    RelinkedKeeps(mc, s, c);
    UpSteps(mc, c, s);
  }

  /** In the up links u over the column pointers C, the rows s of column c are linked
      bottom to top: the header leads to the last row and each row to the one above it. */
  predicate UpChain(u: seq<int>, C: seq<int>, c: int, s: seq<int>) {
    |C| == |u| && 0 <= c < |u| && C[c] == c && u[c] == ([c] + s)[|s|] &&
      forall k :: 0 <= k < |s| ==> 0 <= s[k] < |u| && C[s[k]] == c && u[s[k]] == ([c] + s)[k]
  }

  lemma ColumnUpChain(m: Links, c: int, s: seq<int>)
    requires Arena(m) && 0 <= c < FirstRow && m.C[c] == c && Column(m, c, s)
    ensures UpChain(m.U, m.C, c, s)
  {
    forall k | 0 <= k < |s|
      ensures m.U[s[k]] == ([c] + s)[k]
    {
      assert m.U[s[k]] == if k > 0 then s[k - 1] else c;
    }
  }

  /** Linking back rows of column c other than its nodes leaves its up links as its list in
      m0 says: the header leads to the bottom row and each row to the one above it. */
  lemma UpSteps(mc: Links, c: int, s: seq<int>)
    requires Uncovering(mc, c, s)
    requires forall k, n {:trigger Relinked(mc, s, k).U[n]} :: 0 <= k <= |s| && 0 <= n < |mc.C| && mc.C[n] == c ==> Relinked(mc, s, k).U[n] == mc.U[n]
    ensures UncoverReady(mc, c, s)
  {
    assert Relinked(mc, s, |s|).U[c] == mc.U[c];
    forall k | 0 <= k < |s|
      ensures Relinked(mc, s, k).U[s[k]] == ([c] + s)[k]
    {
      assert Relinked(mc, s, k).U[s[k]] == mc.U[s[k]];
    }
  }

  /** The chain survives writes to cells outside column c. */
  lemma UpChainFrame(u: seq<int>, u': seq<int>, C: seq<int>, c: int, s: seq<int>)
    requires UpChain(u, C, c, s) && |u'| == |u|
    requires forall n :: 0 <= n < |C| && C[n] == c ==> u'[n] == u[n]
    ensures UpChain(u', C, c, s)
  {
  }

  lemma UncoverWalk(m: Links, a: Lists, c: int)
    requires Wf(m, a) && RowsWhole(m, a) && c in a.active
    ensures Arena(m) && 0 <= c < |m.C| && RowNodes(a.cols[c], |m.C|)
    ensures UncoverReady(CoverLinks(m, a.cols[c], c), c, a.cols[c])
    ensures var mc := CoverLinks(m, a.cols[c], c);
      HeaderIn(Relinked(mc, a.cols[c], 0), c) == UncoverLinks(mc, a.cols[c], c) == m
  {
    CoveringAt(m, a, c);
    CoverUncover(m, a, c);
    UncoverFrom(HeaderOut(m, c), c, a.cols[c]);
    UncoverSteps(CoverLinks(m, a.cols[c], c), c, a.cols[c]);
  }

  // ---------------------------------------------------------------------------------------
  // The row `search` tries

  /** A row node r under an active column c lies in a whole row of the arena; the columns of
      the other three nodes of its row are distinct and stay active once c is covered. */
  lemma RowOthers(m: Links, a: Lists, c: int, r: int)
    requires Wf(m, a) && RowsWhole(m, a) && c in a.active && r in a.cols[c]
    ensures FirstRow <= r && NodeAt(Row(r), 3) < |m.C| && m.C[r] == c
    ensures var hs := [m.C[RowNth(r, 1)], m.C[RowNth(r, 2)], m.C[RowNth(r, 3)]];
      Distinct(hs) && forall q :: 0 <= q < 3 ==> hs[q] in Without(a.active, [c])
  {
    assert Column(m, c, a.cols[c]);
    RowWithin(|m.C|, r);
    assert Hangs(m, a, r);
    RowNthCompose(r, 1, 1);
    RowNthCompose(r, 1, 2);
    RowNthCompose(r, 2, 1);
    assert m.C[RowNth(RowNth(r, 1), 1)] != m.C[RowNth(r, 1)];
    assert m.C[RowNth(RowNth(r, 1), 2)] != m.C[RowNth(r, 1)];
    assert m.C[RowNth(RowNth(r, 2), 1)] != m.C[RowNth(r, 2)];
  }
}
