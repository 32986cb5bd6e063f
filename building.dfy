/** How `initialize` (src/dlx.js:35-74) builds the toroidal matrix: a fresh node, the two
    splice helpers `linkRight` and `linkDown`, and what the links look like after every
    header and after every node of a candidate row. */
module Building {
  import opened CircularLists
  import opened Dancing
  import opened Sudoku
  import opened Solutions

  datatype Option<T> = None | Some(value: T)

  /** Pointers of n nodes: every array has one entry per node, every pointer names one of
      them, every column pointer a header. Unlike `Arena`, a row may still be half built. */
  predicate Sane(m: Links) {
    var N := |m.C|;
    |m.L| == N && |m.R| == N && |m.U| == N && |m.D| == N && |m.S| == FirstRow &&
      Within(m.L, 0, N) && Within(m.R, 0, N) && Within(m.U, 0, N) && Within(m.D, 0, N) &&
      Within(m.C, 0, FirstRow)
  }

  // ---------------------------------------------------------------------------------------
  // The three building steps, one function per statement group of the source

  /** `new Node(col)` (src/dlx.js:7-12): node |m.C|, pointing to itself four ways, with
      column col. */
  function NewNode(m: Links, col: int): Links {
    var n := |m.C|;
    Links(m.L + [n], m.R + [n], m.U + [n], m.D + [n], m.C + [col], m.S)
  }

  /** `new ColumnNode(name)` (src/dlx.js:18-23): a fresh node that is its own column, of
      size 0. */
  function NewHeader(m: Links): Links
    requires |m.C| < |m.S|
  {
    var n := |m.C|;
    var m1 := NewNode(m, n);
    m1.(S := m.S[n := 0])
  }

  /** `linkRight(left, n)` (src/dlx.js:77-82), in the statement order of the source. */
  function LinkRight(m: Links, left: int, n: int): Links
    requires |m.L| == |m.R| && 0 <= left < |m.R| && 0 <= n < |m.R| && 0 <= m.R[left] < |m.R|
  {
    var R1 := m.R[n := m.R[left]];
    var L1 := m.L[R1[n] := n];
    m.(R := R1[left := n], L := L1[n := left])
  }

  /** `linkDown(up, n)` (src/dlx.js:85-91), in the statement order of the source. */
  function LinkDown(m: Links, up: int, n: int): Links
    requires |m.U| == |m.D| && 0 <= up < |m.D| && 0 <= n < |m.D| && 0 <= m.D[up] < |m.D|
    requires up < |m.C| && 0 <= m.C[up] < |m.S|
  {
    var D1 := m.D[n := m.D[up]];
    var U1 := m.U[D1[n] := n];
    m.(D := D1[up := n], U := U1[n := up], S := m.S[m.C[up] := m.S[m.C[up]] + 1])
  }

  /** A list stays encoded when the arrays grow by cells it does not use. */
  lemma EncodesGrow(next: seq<int>, prev: seq<int>, h: int, s: seq<int>, x: int, y: int)
    requires Encodes(next, prev, h, s)
    ensures Encodes(next + [x], prev + [y], h, s)
  {
    EncodesFrame(next, prev, next + [x], prev + [y], h, s);
  }

  /** `linkRight` puts n right of the last member of the list headed by h: the list
      grows by n at its end. */
  lemma LinkRightAppends(m: Links, h: int, s: seq<int>, n: int)
    requires Encodes(m.R, m.L, h, s) && Distinct(s) && h !in s && 0 <= n < |m.R| && n != h && n !in s
    ensures var r := LinkRight(m, m.L[h], n);
      Encodes(r.R, r.L, h, s + [n]) && Distinct(s + [n]) &&
      r.R[m.L[h]] == n && r.L[n] == m.L[h] && r.U == m.U && r.D == m.D && r.S == m.S
  {
    EncodesAppend(m.R, m.L, h, s, n);
  }

  /** `linkDown` from the bottom node of column h puts n right below it, at the bottom of
      the column's list, and adds one to the size of h and of no other column. */
  lemma LinkDownAppends(m: Links, h: int, s: seq<int>, n: int)
    requires Sane(m) && Encodes(m.D, m.U, h, s) && Distinct(s) && h !in s && 0 <= n < |m.D|
    requires n != h && n !in s && m.C[m.U[h]] == h
    ensures var r := LinkDown(m, m.U[h], n);
      Encodes(r.D, r.U, h, s + [n]) && Distinct(s + [n]) &&
      r.D[m.U[h]] == n && r.U[n] == m.U[h] && r.S[h] == m.S[h] + 1 &&
      (forall h' :: 0 <= h' < FirstRow && h' != h ==> r.S[h'] == m.S[h']) &&
      r.L == m.L && r.R == m.R && r.C == m.C
  {
    EncodesAppend(m.D, m.U, h, s, n);
  }

  // ---------------------------------------------------------------------------------------
  // The header loop (src/dlx.js:36-47)

  /** The headers 1 .. k, in order. */
  function HeaderNames(k: int): (s: seq<int>)
    requires 0 <= k
    ensures |s| == k && forall i :: 0 <= i < k ==> s[i] == i + 1
  {
    seq(k, i => i + 1)
  }

  /** The root and the first k column headers as the header loop leaves them: the root's
      right-list holds headers 1 .. k in creation order, every header is alone in its
      column with size 0. */
  predicate HeaderPhase(m: Links, k: int) {
    0 <= k <= ColumnCount && |m.C| == k + 1 && |m.L| == k + 1 && |m.R| == k + 1 &&
    |m.U| == k + 1 && |m.D| == k + 1 && |m.S| == FirstRow &&
    Encodes(m.R, m.L, Root, HeaderNames(k)) &&
    forall n :: 0 <= n <= k ==> m.U[n] == n && m.D[n] == n && m.C[n] == n && m.S[n] == 0
  }

  /** `this.header = new ColumnNode("header")` as the first node starts the header phase. */
  lemma RootPhase(m: Links)
    requires |m.C| == 0 && |m.L| == 0 && |m.R| == 0 && |m.U| == 0 && |m.D| == 0 && |m.S| == FirstRow
    ensures HeaderPhase(NewHeader(m), 0)
  {
    var m1 := NewHeader(m);
    assert m1.R == [0] && m1.L == [0];
  }

  /** One pass of the header loop, `linkRight(this.header.left, new ColumnNode(i))`, appends
      header i + 1 to the root's right-list. */
  lemma HeaderStep(m: Links, k: int)
    requires HeaderPhase(m, k) && k < ColumnCount
    ensures var m1 := NewHeader(m);
      |m1.R| == k + 2 && 0 <= m1.L[Root] < k + 2 && 0 <= m1.R[m1.L[Root]] < k + 2 &&
      HeaderPhase(LinkRight(m1, m1.L[Root], k + 1), k + 1)
  {
    var m1 := NewHeader(m);
    var s := HeaderNames(k);
    EncodesGrow(m.R, m.L, Root, s, k + 1, k + 1);
    assert Distinct(s);
    LinkRightAppends(m1, Root, s, k + 1);
    assert s + [k + 1] == HeaderNames(k + 1);
    var m2 := LinkRight(m1, m1.L[Root], k + 1);
    HeaderAlone(m, k, m2);
  }

  /** The new header k + 1 is alone in its column with size 0, and so are the older ones. */
  lemma HeaderAlone(m: Links, k: int, m2: Links)
    requires HeaderPhase(m, k) && k < ColumnCount
    requires m2.U == m.U + [k + 1] && m2.D == m.D + [k + 1] && m2.C == m.C + [k + 1] && m2.S == m.S[k + 1 := 0]
    ensures forall n :: 0 <= n <= k + 1 ==> m2.U[n] == n && m2.D[n] == n && m2.C[n] == n && m2.S[n] == 0
  {
  }

  /** After the header loop, the root's right-list holds the 324 column headers 1 .. 324 in
      ascending order and every column is empty with size 0. */
  lemma HeadersDone(m: Links)
    requires HeaderPhase(m, ColumnCount)
    ensures Wf(m, Lists(AllColumns(), EmptyColumns())) && AllHang(m, Lists(AllColumns(), EmptyColumns()))
  {
    var s := HeaderNames(ColumnCount);
    assert s == AllColumns();
    forall n | 0 < n < FirstRow
      ensures 0 <= m.L[n] < FirstRow && 0 <= m.R[n] < FirstRow
    {
      assert n == s[n - 1];
    }
    assert Distinct(s);
    forall h | 0 <= h < FirstRow
      ensures Column(m, h, [])
    {
    }
  }

  /** Every column list empty. */
  function EmptyColumns(): (cols: seq<seq<int>>)
    ensures |cols| == FirstRow && forall h :: 0 <= h < FirstRow ==> cols[h] == []
  {
    seq(FirstRow, _ => [])
  }

  // ---------------------------------------------------------------------------------------
  // One candidate row (src/dlx.js:93-114)

  /** One pass of the loop of `addMatrixRow`: a new node in column h, `linkDown(h.up, n)`,
      and `linkRight(prev, n)` when there is a previous node. */
  function AddNode(m: Links, h: int, prev: Option<int>): (r: Links)
    requires Sane(m) && 0 <= h < FirstRow <= |m.C| && (prev.Some? ==> 0 <= prev.value < |m.C|)
    ensures Sane(r) && |r.C| == |m.C| + 1
  {
    var n := |m.C|;
    var m1 := NewNode(m, h);
    assert Within(m1.D, 0, n + 1) && Within(m1.R, 0, n + 1);
    var m2 := LinkDown(m1, m1.U[h], n);
    if prev.None? then m2 else LinkRight(m2, prev.value, n)
  }

  /** The first i passes of the loop of `addMatrixRow` for a row in columns hs. */
  function AddNodes(m: Links, hs: seq<int>, i: int): (r: Links)
    requires Sane(m) && FirstRow <= |m.C| && 0 <= i <= |hs| && forall j :: 0 <= j < |hs| ==> 0 <= hs[j] < FirstRow
    ensures Sane(r) && |r.C| == |m.C| + i
  {
    if i == 0 then m
    else AddNode(AddNodes(m, hs, i - 1), hs[i - 1], if i == 1 then None else Some(|m.C| + i - 2))
  }

  /** The column lists once the first i nodes of a row in columns hs, the first of them
      node n0, hang at the bottom of their columns. */
  function Grown(cols: seq<seq<int>>, hs: seq<int>, n0: int, i: int): (r: seq<seq<int>>)
    requires |cols| == FirstRow && 0 <= i <= |hs| && forall j :: 0 <= j < |hs| ==> 0 <= hs[j] < FirstRow
    ensures |r| == FirstRow
  {
    if i == 0 then cols
    else
      var g := Grown(cols, hs, n0, i - 1);
      g[hs[i - 1] := g[hs[i - 1]] + [n0 + i - 1]]
  }

  /** A node is on a grown list when it was on the list before or is one of the new nodes
      of that column. */
  lemma {:induction false} GrownMembers(cols: seq<seq<int>>, hs: seq<int>, n0: int, i: int)
    requires |cols| == FirstRow && 0 <= i <= |hs| && forall j :: 0 <= j < |hs| ==> 0 <= hs[j] < FirstRow
    ensures forall h, x :: 0 <= h < FirstRow ==>
      (x in Grown(cols, hs, n0, i)[h] <==> x in cols[h] || (n0 <= x < n0 + i && hs[x - n0] == h))
  {
    if i > 0 {
      GrownMembers(cols, hs, n0, i - 1);
    }
  }

  /** The links after the first i passes of `addMatrixRow` over links m0 with column lists
      cols: the new nodes sit in the columns hs[..i], form one circular right-list in
      creation order, hang at the bottom of their columns, and every older node keeps its
      left and right pointers. */
  predicate RowSoFar(m0: Links, cols: seq<seq<int>>, hs: seq<int>, i: int, p: Links)
    requires |cols| == FirstRow && 0 <= i <= |hs| && forall j :: 0 <= j < |hs| ==> 0 <= hs[j] < FirstRow
  {
    Horizontal(m0, hs, i, p) && Vertical(cols, hs, |m0.C|, i, p)
  }

  /** The column and left/right pointers of RowSoFar. */
  predicate Horizontal(m0: Links, hs: seq<int>, i: int, p: Links)
    requires 0 <= i <= |hs|
  {
    var n0 := |m0.C|;
    Sane(p) && |p.C| == n0 + i && |m0.L| == n0 && |m0.R| == n0 && p.C == m0.C + hs[..i] &&
    (forall x :: 0 <= x < n0 ==> p.L[x] == m0.L[x] && p.R[x] == m0.R[x]) &&
    (forall n :: n0 <= n < n0 + i ==> p.R[n] == (if n + 1 < n0 + i then n + 1 else n0)) &&
    (forall n :: n0 <= n < n0 + i ==> p.L[n] == (if n == n0 then n0 + i - 1 else n - 1))
  }

  /** The up/down pointers and sizes of RowSoFar, with n0 the first node of the row. */
  predicate Vertical(cols: seq<seq<int>>, hs: seq<int>, n0: int, i: int, p: Links)
    requires |cols| == FirstRow && 0 <= i <= |hs| && forall j :: 0 <= j < |hs| ==> 0 <= hs[j] < FirstRow
  {
    var G := Grown(cols, hs, n0, i);
    |p.S| == FirstRow && |p.U| == |p.C| && |p.D| == |p.C| && Within(p.U, 0, |p.C|) && Within(p.D, 0, |p.C|) &&
    (forall n :: 0 <= n < |p.C| ==> p.C[p.U[n]] == p.C[n] && p.C[p.D[n]] == p.C[n]) &&
    forall h :: 0 <= h < FirstRow ==> Column(p, h, G[h])
  }

  /** Vertical reads only the up/down, column and size pointers. */
  lemma GrowVerticalFrame(cols: seq<seq<int>>, hs: seq<int>, n0: int, i: int, p: Links, q: Links)
    requires |cols| == FirstRow && 0 <= i <= |hs| && forall j :: 0 <= j < |hs| ==> 0 <= hs[j] < FirstRow
    requires Vertical(cols, hs, n0, i, p) && q.U == p.U && q.D == p.D && q.C == p.C && q.S == p.S
    ensures Vertical(cols, hs, n0, i, q)
  {
    var G := Grown(cols, hs, n0, i);
    forall h | 0 <= h < FirstRow
      ensures Column(q, h, G[h])
    {
      assert Column(p, h, G[h]);
    }
  }

  /** Creating node n = |p.C| in column h and linking it down from the bottom of h appends
      it to the list of h. */
  lemma ColumnGrows(p: Links, h: int, s: seq<int>)
    requires Sane(p) && 1 <= h < FirstRow <= |p.C| && Column(p, h, s) && p.C[h] == h && p.C[p.U[h]] == h
    ensures var n := |p.C|;
      var m1 := NewNode(p, h);
      0 <= m1.U[h] < |m1.D| && 0 <= m1.D[m1.U[h]] < |m1.D| && m1.C[m1.U[h]] == h &&
      Column(LinkDown(m1, m1.U[h], n), h, s + [n])
  {
    var n := |p.C|;
    var m1 := NewNode(p, h);
    EncodesGrow(p.D, p.U, h, s, n, n);
    LinkDownAppends(m1, h, s, n);
  }

  /** ... and keeps the list and size of every other column h'. */
  lemma ColumnKept(p: Links, h: int, h': int, s: seq<int>)
    requires Sane(p) && 1 <= h < FirstRow <= |p.C| && 0 <= h' < FirstRow && h' != h && Column(p, h', s)
    requires p.C[h] == h && p.C[h'] == h' && p.C[p.U[h]] == h && p.C[p.D[p.U[h]]] == h
    ensures var n := |p.C|;
      var m1 := NewNode(p, h);
      0 <= m1.U[h] < |m1.D| && 0 <= m1.D[m1.U[h]] < |m1.D| && m1.C[m1.U[h]] == h &&
      Column(LinkDown(m1, m1.U[h], n), h', s)
  {
    var n := |p.C|;
    var m1 := NewNode(p, h);
    var m2 := LinkDown(m1, m1.U[h], n);
    EncodesGrow(p.D, p.U, h', s, n, n);
    EncodesFrame(m1.D, m1.U, m2.D, m2.U, h', s);
  }

  /** Pass i of `addMatrixRow` creates node n = |p.C| in column h = hs[i - 1] and links it
      down from the bottom of h: it hangs at the bottom of h, every other column keeps its
      list and size, and every node's vertical neighbours stay in its own column. */
  lemma ColumnsStep(m0: Links, cols: seq<seq<int>>, hs: seq<int>, i: int, p: Links)
    requires |cols| == FirstRow && 0 < i <= |hs| && (forall j :: 0 <= j < |hs| ==> 1 <= hs[j] < FirstRow)
    requires FirstRow <= |m0.C| && (forall h :: 0 <= h < FirstRow ==> m0.C[h] == h)
    requires Sane(p) && |p.C| == |m0.C| + i - 1 && p.C == m0.C + hs[..i - 1] && Vertical(cols, hs, |m0.C|, i - 1, p)
    ensures var h, n := hs[i - 1], |p.C|;
      var m1 := NewNode(p, h);
      0 <= m1.U[h] < |m1.D| && 0 <= m1.D[m1.U[h]] < |m1.D| && m1.C[m1.U[h]] == h &&
      Vertical(cols, hs, |m0.C|, i, LinkDown(m1, m1.U[h], n))
  {
    var h, n, n0 := hs[i - 1], |p.C|, |m0.C|;
    assert p.C[h] == m0.C[h] == h;
    assert p.C[p.U[h]] == h && p.C[p.D[p.U[h]]] == h;
    var G := Grown(cols, hs, n0, i - 1);
    assert Vertical(cols, hs, n0, i - 1, p);
    ColumnListsStep(m0, cols, hs, i, p, G);
  }

  /** The column lists part of ColumnsStep. */
  lemma ColumnListsStep(m0: Links, cols: seq<seq<int>>, hs: seq<int>, i: int, p: Links, G: seq<seq<int>>)
    requires |cols| == FirstRow && 0 < i <= |hs| && (forall j :: 0 <= j < |hs| ==> 1 <= hs[j] < FirstRow)
    requires FirstRow <= |m0.C| && (forall h :: 0 <= h < FirstRow ==> m0.C[h] == h)
    requires Sane(p) && |p.C| == |m0.C| + i - 1 && p.C == m0.C + hs[..i - 1]
    requires p.C[p.U[hs[i - 1]]] == hs[i - 1] && p.C[p.D[p.U[hs[i - 1]]]] == hs[i - 1]
    requires G == Grown(cols, hs, |m0.C|, i - 1) && forall h :: 0 <= h < FirstRow ==> Column(p, h, G[h])
    ensures var G' := Grown(cols, hs, |m0.C|, i);
      forall h' :: 0 <= h' < FirstRow ==> Column(LinkDown(NewNode(p, hs[i - 1]), p.U[hs[i - 1]], |p.C|), h', G'[h'])
  {
    var h, n, n0 := hs[i - 1], |p.C|, |m0.C|;
    var G' := Grown(cols, hs, n0, i);
    assert p.C[h] == m0.C[h] == h;
    forall h' | 0 <= h' < FirstRow
      ensures Column(LinkDown(NewNode(p, h), p.U[h], n), h', G'[h'])
    {
      assert p.C[h'] == m0.C[h'] == h';
      if h' == h {
        ColumnGrows(p, h, G[h]);
      } else {
        ColumnKept(p, h, h', G[h']);
      }
    }
  }

  /** `linkRight(prev, n)` with prev the last of the i nodes n0 .. n0 + i - 1 of a circular
      row closes the circle through n instead. */
  lemma RowCircleStep(m: Links, n0: int, i: int)
    requires Sane(m) && 0 <= n0 && 0 < i && |m.C| == n0 + i + 1
    requires forall n :: n0 <= n < n0 + i ==> m.R[n] == (if n + 1 < n0 + i then n + 1 else n0)
    requires forall n :: n0 <= n < n0 + i ==> m.L[n] == (if n == n0 then n0 + i - 1 else n - 1)
    requires m.R[n0 + i] == n0 + i && m.L[n0 + i] == n0 + i
    ensures var r := LinkRight(m, n0 + i - 1, n0 + i);
      (forall x :: 0 <= x < n0 ==> r.L[x] == m.L[x] && r.R[x] == m.R[x]) &&
      (forall n :: n0 <= n <= n0 + i ==> r.R[n] == (if n < n0 + i then n + 1 else n0)) &&
      (forall n :: n0 <= n <= n0 + i ==> r.L[n] == (if n == n0 then n0 + i else n - 1)) &&
      r.U == m.U && r.D == m.D && r.C == m.C && r.S == m.S
  {
  }

  /** Pass i of the loop of `addMatrixRow` keeps the description of the row so far. */
  lemma RowSoFarStep(m0: Links, cols: seq<seq<int>>, hs: seq<int>, i: int, p: Links)
    requires |cols| == FirstRow && 0 < i <= |hs| && (forall j :: 0 <= j < |hs| ==> 1 <= hs[j] < FirstRow)
    requires FirstRow <= |m0.C| && (forall h :: 0 <= h < FirstRow ==> m0.C[h] == h)
    requires RowSoFar(m0, cols, hs, i - 1, p)
    ensures RowSoFar(m0, cols, hs, i, AddNode(p, hs[i - 1], if i == 1 then None else Some(|m0.C| + i - 2)))
  {
    var h, n0, n := hs[i - 1], |m0.C|, |p.C|;
    ColumnsStep(m0, cols, hs, i, p);
    var m2 := LinkDown(NewNode(p, h), p.U[h], n);
    var r := AddNode(p, h, if i == 1 then None else Some(n0 + i - 2));
    HorizontalStep(m0, hs, i, p);
    GrowVerticalFrame(cols, hs, n0, i, m2, r);
  }

  /** ... and so does its horizontal part. */
  lemma HorizontalStep(m0: Links, hs: seq<int>, i: int, p: Links)
    requires 0 < i <= |hs| && (forall j :: 0 <= j < |hs| ==> 1 <= hs[j] < FirstRow) && FirstRow <= |m0.C|
    requires Horizontal(m0, hs, i - 1, p)
    ensures var h, n := hs[i - 1], |p.C|;
      var r := AddNode(p, h, if i == 1 then None else Some(|m0.C| + i - 2));
      Horizontal(m0, hs, i, r) &&
      r.U == LinkDown(NewNode(p, h), p.U[h], n).U && r.D == LinkDown(NewNode(p, h), p.U[h], n).D &&
      r.C == p.C + [h] && r.S == LinkDown(NewNode(p, h), p.U[h], n).S
  {
    var h, n0, n := hs[i - 1], |m0.C|, |p.C|;
    var m2 := LinkDown(NewNode(p, h), p.U[h], n);
    assert m2.R == p.R + [n] && m2.L == p.L + [n] && m2.C == p.C + [h];
    var r := AddNode(p, h, if i == 1 then None else Some(n0 + i - 2));
    if i > 1 {
      assert p.R[n0 + i - 2] == n0;
      RowCircleStep(m2, n0, i - 1);
    }
    assert hs[..i] == hs[..i - 1] + [hs[i - 1]];
  }

  /** The first i passes of `addMatrixRow` over well-formed links. */
  lemma {:induction false} RowSoFarAt(m0: Links, a: Lists, hs: seq<int>, i: int)
    requires Wf(m0, a) && 0 <= i <= |hs| && forall j :: 0 <= j < |hs| ==> 1 <= hs[j] < FirstRow
    ensures RowSoFar(m0, a.cols, hs, i, AddNodes(m0, hs, i))
  {
    if i == 0 {
      RowStart(m0, a, hs);
    } else {
      RowSoFarAt(m0, a, hs, i - 1);
      RowSoFarStep(m0, a.cols, hs, i, AddNodes(m0, hs, i - 1));
    }
  }

  /** Before the first pass, the well-formed links m0 are a row of no nodes so far. */
  lemma RowStart(m0: Links, a: Lists, hs: seq<int>)
    requires Wf(m0, a) && forall j :: 0 <= j < |hs| ==> 1 <= hs[j] < FirstRow
    ensures RowSoFar(m0, a.cols, hs, 0, m0)
  {
    assert hs[..0] == [] && m0.C + [] == m0.C;
    assert Horizontal(m0, hs, 0, m0);
    var G := Grown(a.cols, hs, |m0.C|, 0);
    forall h | 0 <= h < FirstRow
      ensures Column(m0, h, G[h])
    {
    }
  }
  /** Four nodes in four different columns hs, added to well-formed links m0 with lists a,
      leave well-formed links: the new row is a circular right-list in creation order, and
      its nodes hang at the bottom of the columns hs. */
  lemma AddRowWf(m0: Links, a: Lists, hs: seq<int>)
    requires Wf(m0, a) && |hs| == 4 && (forall j :: 0 <= j < 4 ==> 1 <= hs[j] < FirstRow)
    requires forall j, k :: 0 <= j < k < 4 ==> hs[j] != hs[k]
    ensures Wf(AddNodes(m0, hs, 4), Lists(a.active, Grown(a.cols, hs, |m0.C|, 4)))
    ensures AddNodes(m0, hs, 4).C == m0.C + hs
  {
    RowSoFarAt(m0, a, hs, 4);
    var p := AddNodes(m0, hs, 4);
    assert hs[..4] == hs;
    AddRowArena(m0, hs, p);
    RowsAfter(m0, hs, p);
    AddRowHeaderList(m0, a.active, hs, p);
    AddRowColumns(a.cols, hs, |m0.C|, p);
  }

  /** The links with a whole new row added are an arena whose headers are their own
      columns. */
  lemma AddRowArena(m0: Links, hs: seq<int>, p: Links)
    requires Arena(m0) && Headers(m0) && |hs| == 4 && Horizontal(m0, hs, 4, p) && p.C == m0.C + hs
    requires forall j :: 0 <= j < 4 ==> 1 <= hs[j] < FirstRow
    ensures Arena(p) && Headers(p)
  {
    assert RowsFit(|m0.C|);
    forall h | 0 <= h < FirstRow
      ensures p.C[h] == h
    {
      assert p.C[h] == m0.C[h];
    }
  }

  /** Adding a row leaves the root's list as it was. */
  lemma AddRowHeaderList(m0: Links, active: seq<int>, hs: seq<int>, p: Links)
    requires Arena(m0) && HeaderList(m0, active) && |hs| == 4 && Horizontal(m0, hs, 4, p) && Arena(p)
    ensures HeaderList(p, active)
  {
    EncodesFrame(m0.R, m0.L, p.R, p.L, Root, active);
  }

  /** The vertical part of a row added in full gives closed columns whose lists are the
      grown ones. */
  lemma AddRowColumns(cols: seq<seq<int>>, hs: seq<int>, n0: int, p: Links)
    requires |cols| == FirstRow && |hs| == 4 && forall j :: 0 <= j < 4 ==> 1 <= hs[j] < FirstRow
    requires Arena(p) && Vertical(cols, hs, n0, 4, p)
    ensures ColumnClosed(p) && ColumnLists(p, Grown(cols, hs, n0, 4))
  {
  }

  /** A node in the row of an older node n is older than the first node n0 of a new row. */
  lemma RowBelow(n: int, x: int, n0: int)
    requires RowsFit(n0) && FirstRow <= n < n0 && FirstRow <= x && Row(x) == Row(n)
    ensures x < n0
  {
    assert Slot(n0) == 0;
  }

  /** The rows part of AddRowWf. */
  lemma RowsAfter(m0: Links, hs: seq<int>, p: Links)
    requires Arena(m0) && Rows(m0) && |hs| == 4 && Horizontal(m0, hs, 4, p) && Arena(p)
    requires (forall j :: 0 <= j < 4 ==> 1 <= hs[j] < FirstRow) && forall j, k :: 0 <= j < k < 4 ==> hs[j] != hs[k]
    ensures Rows(p)
  {
    var n0 := |m0.C|;
    assert p.C == m0.C + hs;
    assert Slot(n0) == 0;
    forall n | FirstRow <= n < |p.C|
      ensures p.R[n] == RowNth(n, 1) && p.L[n] == RowNth(n, 3) && 1 <= p.C[n]
    {
      if n < n0 {
        assert m0.R[n] == RowNth(n, 1) && m0.L[n] == RowNth(n, 3) && 1 <= m0.C[n];
      } else {
        assert Row(n) == Row(n0) && Slot(n) == n - n0;
      }
    }
    RowColumnsAfter(m0, hs, p.C);
  }

  /** ... in particular no two nodes of a row share a column. */
  lemma RowColumnsAfter(m0: Links, hs: seq<int>, C: seq<int>)
    requires Arena(m0) && Rows(m0) && |hs| == 4 && C == m0.C + hs
    requires forall j, k :: 0 <= j < k < 4 ==> hs[j] != hs[k]
    ensures forall n, q {:trigger RowNth(n, q)} :: FirstRow <= n < |C| && 1 <= q < 4 ==> C[RowNth(n, q)] != C[n]
  {
    var n0 := |m0.C|;
    assert Slot(n0) == 0;
    forall n, q | FirstRow <= n < |C| && 1 <= q < 4
      ensures C[RowNth(n, q)] != C[n]
    {
      var x := RowNth(n, q);
      if n < n0 {
        RowBelow(n, x, n0);
        assert m0.C[x] != m0.C[n];
      } else {
        assert Row(n) == Row(n0) && Slot(n) == n - n0;
        assert x == n0 + Wrap(n - n0 + q);
      }
    }
  }
  // ---------------------------------------------------------------------------------------
  // The whole matrix (src/dlx.js:49-73)

  /** The header nodes `columns[indices[j]]`: column name i is node i + 1. */
  function ColumnNodes(indices: seq<int>): (hs: seq<int>)
    ensures |hs| == |indices| && forall j :: 0 <= j < |indices| ==> hs[j] == indices[j] + 1
  {
    seq(|indices|, j requires 0 <= j < |indices| => indices[j] + 1)
  }

  /** The entries of d from index k on are all x. */
  predicate Stamped(d: seq<Candidate>, k: int, x: Candidate) {
    forall n :: 0 <= k <= n < |d| ==> d[n] == x
  }

  /** After i passes of the loop of `addMatrixRow` over links m0 and payloads d0, the links
      are m, the payloads d carry x on every new node, and prev is the last new node. */
  predicate RowPass(m0: Links, d0: seq<Candidate>, hs: seq<int>, x: Candidate, i: int, m: Links, d: seq<Candidate>, prev: Option<int>)
    requires Sane(m0) && FirstRow <= |m0.C| && 0 <= i <= |hs| && forall j :: 0 <= j < |hs| ==> 0 <= hs[j] < FirstRow
  {
    var n0 := |m0.C|;
    m == AddNodes(m0, hs, i) && |d| == n0 + i && d[..n0] == d0 && Stamped(d, n0, x) &&
      prev == if i == 0 then None else Some(n0 + i - 1)
  }

  /** One more pass of that loop: AddNode in column hs[i], after the previous node. */
  lemma RowPassStep(m0: Links, d0: seq<Candidate>, hs: seq<int>, x: Candidate, i: int, m: Links, d: seq<Candidate>, prev: Option<int>)
    requires Sane(m0) && FirstRow <= |m0.C| && 0 <= i < |hs| && forall j :: 0 <= j < |hs| ==> 0 <= hs[j] < FirstRow
    requires RowPass(m0, d0, hs, x, i, m, d, prev)
    ensures |m.C| == |m0.C| + i && (prev.Some? ==> 0 <= prev.value < |m.C|)
    ensures RowPass(m0, d0, hs, x, i + 1, AddNode(m, hs[i], prev), d + [x], Some(|m.C|))
  {
    assert (d + [x])[..|m0.C|] == d[..|m0.C|];
  }

  /** Row k of the matrix carries the candidate xs[k], for every row. */
  predicate RowsCarry(d: seq<Candidate>, xs: seq<Candidate>) {
    |d| == FirstRow + 4 * |xs| && forall k :: 0 <= k < |xs| ==> d[NodeAt(k, 0)] == xs[k]
  }

  /** The row of one more candidate carries it. */
  lemma RowsCarryGrow(d: seq<Candidate>, xs: seq<Candidate>, x: Candidate)
    requires RowsCarry(d, xs)
    ensures RowsCarry(d + [x, x, x, x], xs + [x])
  {
    var d', xs' := d + [x, x, x, x], xs + [x];
    forall k | 0 <= k < |xs'|
      ensures d'[NodeAt(k, 0)] == xs'[k]
    {
      if k < |xs| {
        assert d'[NodeAt(k, 0)] == d[NodeAt(k, 0)];
      }
    }
  }

  /** The links m and payloads d are the matrix `initialize` builds for grid g once it has
      added the rows of the candidates xs: well-formed with column lists cols, every column
      on the root's list, every row node hanging on its column and carrying its row's
      candidate, row k carrying xs[k]. */
  predicate BuiltFor(g: Grid, xs: seq<Candidate>, cols: seq<seq<int>>, m: Links, d: seq<Candidate>) {
    IsGrid(g) && |cols| == FirstRow && |xs| <= 729 &&
      Wf(m, Lists(AllColumns(), cols)) && AllHang(m, Lists(AllColumns(), cols)) &&
      Carries(m.C, d, g) && RowsCarry(d, xs)
  }

  /** The number of candidates among xs whose row meets header h. */
  function Touching(xs: seq<Candidate>, h: int): (n: nat)
    ensures n <= |xs|
  {
    if xs == [] then 0
    else
      var x := xs[|xs| - 1];
      Touching(xs[..|xs| - 1], h) + (if InRange(x) && h in Columns(x) then 1 else 0)
  }

  /** Every column list holds one node per candidate of xs that meets it. */
  predicate Counted(cols: seq<seq<int>>, xs: seq<Candidate>) {
    |cols| == FirstRow && forall h :: 0 <= h < FirstRow ==> |cols[h]| == Touching(xs, h)
  }

  /** A column list grows by one node for each of the first i columns of hs that it is. */
  lemma {:induction false} GrownLength(cols: seq<seq<int>>, hs: seq<int>, n0: int, i: int, h: int)
    requires |cols| == FirstRow && 0 <= i <= |hs| && forall j :: 0 <= j < |hs| ==> 0 <= hs[j] < FirstRow
    requires (forall j, k :: 0 <= j < k < |hs| ==> hs[j] != hs[k]) && 0 <= h < FirstRow
    ensures |Grown(cols, hs, n0, i)[h]| == |cols[h]| + (if h in hs[..i] then 1 else 0)
  {
    if i > 0 {
      GrownLength(cols, hs, n0, i - 1, h);
      assert hs[..i] == hs[..i - 1] + [hs[i - 1]];
      if h == hs[i - 1] {
        assert h !in hs[..i - 1];
      }
    }
  }

  /** Adding the row of an allowed candidate x keeps every column list counted. */
  lemma CountedStep(cols: seq<seq<int>>, xs: seq<Candidate>, x: Candidate, n0: int)
    requires Counted(cols, xs) && InRange(x)
    ensures Counted(Grown(cols, Columns(x), n0, 4), xs + [x])
  {
    var hs := Columns(x);
    var b := Constraints(x);
    assert forall j, k :: 0 <= j < k < 4 ==> b[j] != b[k];
    assert hs[..4] == hs;
    assert (xs + [x])[..|xs|] == xs;
    forall h | 0 <= h < FirstRow
      ensures |Grown(cols, hs, n0, 4)[h]| == Touching(xs + [x], h)
    {
      GrownLength(cols, hs, n0, 4, h);
    }
  }

  /** The matrix has room for the row of one more candidate. */
  lemma BuiltRoom(g: Grid, xs: seq<Candidate>, cols: seq<seq<int>>, m: Links, d: seq<Candidate>)
    requires BuiltFor(g, xs, cols, m, d)
    ensures Sane(m) && |m.C| == |d| == FirstRow + 4 * |xs| && forall h :: 0 <= h < FirstRow ==> m.C[h] == h
  {
  }

  /** Adding the row of one more allowed candidate x, whose payloads the new nodes carry,
      keeps the links and payloads the matrix built so far. */
  lemma BuiltStep(g: Grid, xs: seq<Candidate>, cols: seq<seq<int>>, m0: Links, d0: seq<Candidate>,
                  x: Candidate, m: Links, d: seq<Candidate>)
    requires BuiltFor(g, xs, cols, m0, d0) && Allowed(g, x) && |xs| < 729
    requires Sane(m0) && FirstRow <= |m0.C| && m == AddNodes(m0, ColumnNodes(Constraints(x)), 4)
    requires |d0| <= |d| && d[..|d0|] == d0 && |d| == |d0| + 4 && Stamped(d, |d0|, x)
    ensures BuiltFor(g, xs + [x], Grown(cols, Columns(x), |m0.C|, 4), m, d)
  {
    var a := Lists(AllColumns(), cols);
    ConstraintColumns(x);
    AddRowReady(m0, a, x, g, d0);
    assert d == d0 + [x, x, x, x];
    RowsCarryGrow(d0, xs, x);
  }

  /** The row `initialize` adds for a candidate lies in the candidate's four columns. */
  lemma ConstraintColumns(x: Candidate)
    requires InRange(x)
    ensures ColumnNodes(Constraints(x)) == Columns(x)
  {
    var b, hs := Constraints(x), Columns(x);
    forall j | 0 <= j < 4
      ensures ColumnNodes(b)[j] == hs[j]
    {
      assert hs[j] == ColumnOf(x, j) == 1 + b[j];
    }
  }

  /** Every column is on the root's list, and every row node hangs on its column's list,
      as in the matrix `initialize` builds before any cover. */
  predicate AllHang(m: Links, a: Lists)
    requires |a.cols| == FirstRow
  {
    a.active == AllColumns() && forall n :: FirstRow <= n < |m.C| ==> 0 <= m.C[n] < FirstRow && n in a.cols[m.C[n]]
  }

  /** When everything hangs, every row is whole. */
  lemma HangsWhole(m: Links, a: Lists)
    requires Wf(m, a) && AllHang(m, a)
    ensures RowsWhole(m, a)
  {
    forall n | FirstRow <= n < |m.C| && Hangs(m, a, n)
      ensures WholeRow(m, a, n)
    {
      forall q | 0 <= q < 4 && RowNth(n, q) < |m.C|
        ensures m.C[RowNth(n, q)] in a.active && RowNth(n, q) in a.cols[m.C[RowNth(n, q)]]
      {
        var x := RowNth(n, q);
        assert 1 <= m.C[x] < FirstRow;
        assert AllColumns()[m.C[x] - 1] == m.C[x];
      }
    }
  }

  /** Adding the row of an allowed candidate x to the matrix under construction keeps it
      well-formed, with every column active and every row node hanging on its column and
      carrying its candidate. */
  lemma AddRowReady(m0: Links, a: Lists, x: Candidate, g: Grid, data0: seq<Candidate>)
    requires Wf(m0, a) && AllHang(m0, a) && IsGrid(g) && Allowed(g, x) && Carries(m0.C, data0, g)
    ensures var p, a' := AddNodes(m0, Columns(x), 4), Lists(a.active, Grown(a.cols, Columns(x), |m0.C|, 4));
      Wf(p, a') && AllHang(p, a') && Carries(p.C, data0 + [x, x, x, x], g)
  {
    var hs, n0 := Columns(x), |m0.C|;
    var b := Constraints(x);
    assert forall j, k :: 0 <= j < k < 4 ==> b[j] != b[k];
    AddRowWf(m0, a, hs);
    AddRowHangs(m0, a, hs);
    CarriesGrow(m0.C, data0, g, x);
  }

  /** Every node, old or new, hangs on its column's list once a row in the columns hs is
      added to links where every node hangs. */
  lemma AddRowHangs(m0: Links, a: Lists, hs: seq<int>)
    requires Wf(m0, a) && AllHang(m0, a) && |hs| == 4 && forall j :: 0 <= j < 4 ==> 1 <= hs[j] < FirstRow
    requires AddNodes(m0, hs, 4).C == m0.C + hs
    ensures AllHang(AddNodes(m0, hs, 4), Lists(a.active, Grown(a.cols, hs, |m0.C|, 4)))
  {
    var n0 := |m0.C|;
    var p, G := AddNodes(m0, hs, 4), Grown(a.cols, hs, n0, 4);
    GrownMembers(a.cols, hs, n0, 4);
    forall n | FirstRow <= n < |p.C|
      ensures 0 <= p.C[n] < FirstRow && n in G[p.C[n]]
    {
      if n < n0 {
        assert p.C[n] == m0.C[n] && n in a.cols[m0.C[n]];
      } else {
        assert p.C[n] == hs[n - n0];
      }
    }
  }

  /** The four nodes of x's row carry x, in the columns of its constraints in band order. */
  lemma CarriesGrow(C: seq<int>, data: seq<Candidate>, g: Grid, x: Candidate)
    requires IsGrid(g) && Allowed(g, x) && Carries(C, data, g) && RowsFit(|C|)
    ensures Carries(C + Columns(x), data + [x, x, x, x], g)
  {
    var C', data', n0 := C + Columns(x), data + [x, x, x, x], |C|;
    assert Slot(n0) == 0;
    forall n | FirstRow <= n < |C'|
      ensures NodeCarries(C', data', g, n)
    {
      var f := NodeAt(Row(n), 0);
      if n < n0 {
        RowBelow(n, f, n0);
        assert NodeCarries(C, data, g, n);
      } else {
        assert Row(n) == Row(n0) && Slot(n) == n - n0 && f == n0;
      }
    }
  }
}
