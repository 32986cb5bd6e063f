/** What `search` looks for and what it does between two recursive calls: candidate lists
    that meet every active column exactly once, and the covering of the other columns of a
    chosen row, one after another. */
module Solutions {
  import opened CircularLists
  import opened Dancing
  import opened Sudoku

  /** The header node of constraint q of candidate x (column name i is node i + 1). */
  function ColumnOf(x: Candidate, q: int): (h: int)
    requires InRange(x) && 0 <= q < 4
    ensures 1 <= h <= ColumnCount
  {
    1 + Constraints(x)[q]
  }

  /** The candidates xs meet every column of active exactly once, and no other column. */
  predicate Solves(xs: seq<Candidate>, active: seq<int>) {
    (forall k :: 0 <= k < |xs| ==> InRange(xs[k])) &&
    (forall k, q :: 0 <= k < |xs| && 0 <= q < 4 ==> ColumnOf(xs[k], q) in active) &&
    (forall h :: h in active ==> exists k, q :: 0 <= k < |xs| && 0 <= q < 4 && ColumnOf(xs[k], q) == h) &&
    (forall k1, k2, q1, q2 :: 0 <= k1 < |xs| && 0 <= k2 < |xs| && k1 != k2 && 0 <= q1 < 4 && 0 <= q2 < 4 ==>
       ColumnOf(xs[k1], q1) != ColumnOf(xs[k2], q2))
  }

  /** after is before with candidates pushed on top, each allowed in grid g, that meet
      exactly the columns of active. */
  predicate Extends(before: seq<Candidate>, after: seq<Candidate>, active: seq<int>, g: Grid)
    requires IsGrid(g)
  {
    |before| <= |after| && after[..|before|] == before && Solves(after[|before|..], active) &&
    forall k :: |before| <= k < |after| ==> Allowed(g, after[k])
  }

  /** Pushing candidate x, allowed in g and whose columns are active, and then candidates
      meeting exactly the rest of the active columns meets exactly the active columns. */
  lemma ExtendsPush(before: seq<Candidate>, x: Candidate, after: seq<Candidate>, active: seq<int>, rest: seq<int>, g: Grid)
    requires IsGrid(g) && Allowed(g, x) && forall h :: h in Columns(x) ==> h in active
    requires forall h :: h in rest <==> h in active && h !in Columns(x)
    requires Extends(before + [x], after, rest, g)
    ensures Extends(before, after, active, g)
  {
    var xs := after[|before| + 1..];
    assert after[|before|..] == [x] + xs;
    assert after[..|before|] == (before + [x])[..|before|] == before;
    assert after[|before|] == x;
    SolvesStep(active, rest, x, xs);
  }

  /** The 324 column headers in the order `initialize` links them. */
  function AllColumns(): (hs: seq<int>)
    ensures |hs| == ColumnCount && forall i :: 0 <= i < ColumnCount ==> hs[i] == i + 1
  {
    seq(ColumnCount, i => i + 1)
  }

  /** A candidate list meeting all 324 columns exactly once is an exact cover of the
      Sudoku constraints. */
  lemma SolvesAll(xs: seq<Candidate>)
    requires Solves(xs, AllColumns())
    ensures ExactCover(xs)
  {
    var all := AllColumns();
    forall i | 0 <= i < 324
      ensures Covers(xs, i)
    {
      assert all[i] in all;
      var k, q :| 0 <= k < |xs| && 0 <= q < 4 && ColumnOf(xs[k], q) == all[i];
      assert Constraints(xs[k])[q] == i;
    }
    forall k1, k2, q1, q2 | 0 <= k1 < |xs| && 0 <= k2 < |xs| && k1 != k2 && 0 <= q1 < 4 && 0 <= q2 < 4
      ensures Constraints(xs[k1])[q1] != Constraints(xs[k2])[q2]
    {
      assert ColumnOf(xs[k1], q1) != ColumnOf(xs[k2], q2);
    }
  }

  /** Choosing candidate x, whose four columns are active, and then meeting exactly the
      remaining columns with xs meets exactly the active columns. */
  lemma SolvesStep(active: seq<int>, rest: seq<int>, x: Candidate, xs: seq<Candidate>)
    requires InRange(x) && forall h :: h in Columns(x) ==> h in active
    requires forall h :: h in rest <==> h in active && h !in Columns(x)
    requires Solves(xs, rest)
    ensures Solves([x] + xs, active)
  {
    var ys := [x] + xs;
    forall k | 0 <= k < |ys|
      ensures InRange(ys[k])
    {
      if k > 0 {
        assert ys[k] == xs[k - 1];
      }
    }
    StepInside(active, rest, x, xs);
    StepCovers(active, rest, x, xs);
    StepDisjoint(active, rest, x, xs);
  }

  /** The columns [x] + xs meets are all active. */
  lemma StepInside(active: seq<int>, rest: seq<int>, x: Candidate, xs: seq<Candidate>)
    requires InRange(x) && forall h :: h in Columns(x) ==> h in active
    requires forall h :: h in rest ==> h in active
    requires Solves(xs, rest)
    ensures forall k, q :: 0 <= k < |[x] + xs| && 0 <= q < 4 ==> ColumnOf(([x] + xs)[k], q) in active
  {
    var ys := [x] + xs;
    var cs := Columns(x);
    forall k, q | 0 <= k < |ys| && 0 <= q < 4
      ensures ColumnOf(ys[k], q) in active
    {
      if k > 0 {
        assert ys[k] == xs[k - 1];
      } else {
        assert cs[q] in cs;
      }
    }
  }

  /** Every active column is met by [x] + xs. */
  lemma StepCovers(active: seq<int>, rest: seq<int>, x: Candidate, xs: seq<Candidate>)
    requires InRange(x)
    requires forall h :: h in active && h !in Columns(x) ==> h in rest
    requires Solves(xs, rest)
    ensures forall h :: h in active ==> exists k, q :: 0 <= k < |[x] + xs| && 0 <= q < 4 && ColumnOf(([x] + xs)[k], q) == h
  {
    forall h | h in active
      ensures exists k, q :: 0 <= k < |[x] + xs| && 0 <= q < 4 && ColumnOf(([x] + xs)[k], q) == h
    {
      StepMeets(rest, x, xs, h, h in Columns(x));
    }
  }

  /** Column h, one of the columns of x or else one that xs meets, is met by [x] + xs. */
  lemma StepMeets(rest: seq<int>, x: Candidate, xs: seq<Candidate>, h: int, own: bool)
    requires InRange(x) && Solves(xs, rest)
    requires own <==> h in Columns(x)
    requires !own ==> h in rest
    ensures exists k, q :: 0 <= k < |[x] + xs| && 0 <= q < 4 && ColumnOf(([x] + xs)[k], q) == h
  {
    var ys := [x] + xs;
    if own {
      var cs := Columns(x);
      var q :| 0 <= q < 4 && cs[q] == h;
      assert ColumnOf(ys[0], q) == h;
    } else {
      var k, q :| 0 <= k < |xs| && 0 <= q < 4 && ColumnOf(xs[k], q) == h;
      assert ColumnOf(ys[k + 1], q) == h;
    }
  }

  /** No column is met twice by [x] + xs. */
  lemma StepDisjoint(active: seq<int>, rest: seq<int>, x: Candidate, xs: seq<Candidate>)
    requires InRange(x)
    requires forall h :: h in rest ==> h !in Columns(x)
    requires Solves(xs, rest)
    ensures forall k1, k2, q1, q2 :: 0 <= k1 < |[x] + xs| && 0 <= k2 < |[x] + xs| && k1 != k2 && 0 <= q1 < 4 && 0 <= q2 < 4 ==>
      ColumnOf(([x] + xs)[k1], q1) != ColumnOf(([x] + xs)[k2], q2)
  {
    var ys := [x] + xs;
    var cs := Columns(x);
    forall k1, k2, q1, q2 | 0 <= k1 < |ys| && 0 <= k2 < |ys| && k1 != k2 && 0 <= q1 < 4 && 0 <= q2 < 4
      ensures ColumnOf(ys[k1], q1) != ColumnOf(ys[k2], q2)
    {
      if k1 > 0 && k2 > 0 {
        assert ys[k1] == xs[k1 - 1] && ys[k2] == xs[k2 - 1];
      } else if k1 == 0 {
        assert ys[k2] == xs[k2 - 1];
        assert ColumnOf(xs[k2 - 1], q2) in rest;
        assert cs[q1] in cs;
      } else {
        assert ys[k1] == xs[k1 - 1];
        assert ColumnOf(xs[k1 - 1], q1) in rest;
        assert cs[q2] in cs;
      }
    }
  }

  /** Covering column c of the well-formed links m with lists a gives m' and a'. */
  predicate CoverStep(m: Links, a: Lists, c: int, m': Links, a': Lists) {
    Wf(m, a) && RowsWhole(m, a) && c in a.active &&
      m' == CoverLinks(m, a.cols[c], c) && a' == CoverLists(a, c)
  }

  /** ms[p] and ls[p] are the links and lists after covering hs[..p] one after another. */
  predicate Staged(ms: seq<Links>, ls: seq<Lists>, hs: seq<int>) {
    |ms| == |hs| + 1 && |ls| == |hs| + 1 &&
    forall p :: 0 <= p < |hs| ==> StepAt(ms, ls, hs, p)
  }

  /** Stage p + 1 is stage p with column hs[p] covered. */
  predicate StepAt(ms: seq<Links>, ls: seq<Lists>, hs: seq<int>, p: int) {
    0 <= p < |hs| && |ms| == |hs| + 1 && |ls| == |hs| + 1 &&
    CoverStep(ms[p], ls[p], hs[p], ms[p + 1], ls[p + 1])
  }

  /** The stages of covering the distinct active columns hs of the links m with lists a
      one after another, as the first inner loop of `search` does (src/dlx.js:163-165). */
  function Stages(m: Links, a: Lists, hs: seq<int>): (r: (seq<Links>, seq<Lists>))
    requires Wf(m, a) && RowsWhole(m, a) && Distinct(hs)
    requires forall q :: 0 <= q < |hs| ==> hs[q] in a.active
    ensures Staged(r.0, r.1, hs) && r.0[0] == m && r.1[0] == a
    decreases |hs|
  {
    if |hs| == 0 then ([m], [a])
    else
      var c := hs[0];
      CoveringAt(m, a, c);
      CoverRowsWhole(m, a, c);
      var m', a' := CoverLinks(m, a.cols[c], c), CoverLists(a, c);
      StagesTail(a, a', hs);
      var rest := Stages(m', a', hs[1..]);
      StagedCons(m, a, hs, rest.0, rest.1);
      ([m] + rest.0, [a] + rest.1)
  }

  /** Each cover keeps the links well formed, and after covering hs[..k] exactly those
      columns are gone from the active list. */
  lemma {:induction false} StagedAt(ms: seq<Links>, ls: seq<Lists>, hs: seq<int>, k: int)
    requires Staged(ms, ls, hs) && Wf(ms[0], ls[0]) && RowsWhole(ms[0], ls[0]) && 0 <= k <= |hs|
    ensures Wf(ms[k], ls[k]) && RowsWhole(ms[k], ls[k]) && |ms[k].C| == |ms[0].C|
    ensures forall h :: h in ls[k].active <==> h in ls[0].active && h !in hs[..k]
    ensures |ls[k].active| == |ls[0].active| - k
  {
    if k > 0 {
      StagedAt(ms, ls, hs, k - 1);
      var c := hs[k - 1];
      assert StepAt(ms, ls, hs, k - 1);
      CoveringAt(ms[k - 1], ls[k - 1], c);
      CoverRowsWhole(ms[k - 1], ls[k - 1], c);
      WithoutLength(ls[k - 1].active, c);
      PrefixSnoc(hs, k);
    }
  }

  /** After covering hs[0], the rest of hs is still distinct and active. */
  lemma StagesTail(a: Lists, a': Lists, hs: seq<int>)
    requires Distinct(hs) && |hs| > 0 && forall q :: 0 <= q < |hs| ==> hs[q] in a.active
    requires forall h :: h in a'.active <==> h in a.active && h !in [hs[0]]
    ensures Distinct(hs[1..]) && forall q :: 0 <= q < |hs| - 1 ==> hs[1..][q] in a'.active
  {
    forall q | 0 <= q < |hs| - 1
      ensures hs[1..][q] in a'.active
    {
      assert hs[1..][q] == hs[q + 1] != hs[0];
    }
  }

  /** Putting a covering step in front of a sequence of stages. */
  lemma StagedCons(m: Links, a: Lists, hs: seq<int>, ms: seq<Links>, ls: seq<Lists>)
    requires |hs| > 0 && Staged(ms, ls, hs[1..]) && CoverStep(m, a, hs[0], ms[0], ls[0])
    ensures Staged([m] + ms, [a] + ls, hs)
  {
    forall p | 0 <= p < |hs|
      ensures StepAt([m] + ms, [a] + ls, hs, p)
    {
      StagedConsAt(m, a, hs, ms, ls, p);
    }
  }

  /** Step p of the stages with a covering step put in front. */
  lemma StagedConsAt(m: Links, a: Lists, hs: seq<int>, ms: seq<Links>, ls: seq<Lists>, p: int)
    requires |hs| > 0 && Staged(ms, ls, hs[1..]) && CoverStep(m, a, hs[0], ms[0], ls[0]) && 0 <= p < |hs|
    ensures StepAt([m] + ms, [a] + ls, hs, p)
  {
    var ms', ls' := [m] + ms, [a] + ls;
    assert ms'[p + 1] == ms[p] && ls'[p + 1] == ls[p];
    if p > 0 {
      assert hs[p] == hs[1..][p - 1] && ms'[p] == ms[p - 1] && ls'[p] == ls[p - 1];
      assert StepAt(ms, ls, hs[1..], p - 1);
    } else {
      assert ms'[0] == m && ls'[0] == a;
    }
  }

  /** The header nodes of the four constraints of x, in band order. */
  function Columns(x: Candidate): (hs: seq<int>)
    requires InRange(x)
    ensures |hs| == 4 && forall q :: 0 <= q < 4 ==> hs[q] == ColumnOf(x, q)
  {
    seq(4, q requires 0 <= q < 4 => ColumnOf(x, q))
  }

  /** Every row node carries its row's candidate (`newNode.data = data`), which is allowed
      in grid g, and sits in the column of that candidate's constraint for its position in
      the row (src/dlx.js:93-113). */
  predicate Carries(C: seq<int>, data: seq<Candidate>, g: Grid)
    requires IsGrid(g)
  {
    |data| == |C| && forall n :: FirstRow <= n < |C| ==> NodeCarries(C, data, g, n)
  }

  /** Row node n carries its row's candidate, allowed in g, and sits in that candidate's
      column for its position in the row. */
  predicate NodeCarries(C: seq<int>, data: seq<Candidate>, g: Grid, n: int)
    requires IsGrid(g) && |data| == |C| && FirstRow <= n < |C|
  {
    Allowed(g, data[n]) && data[n] == data[NodeAt(Row(n), 0)] && C[n] == ColumnOf(data[n], Slot(n))
  }

  /** The columns met walking a row from any of its nodes are the four columns of the
      candidate it carries. */
  lemma RowColumns(C: seq<int>, data: seq<Candidate>, g: Grid, r: int)
    requires IsGrid(g) && Carries(C, data, g) && FirstRow <= r && NodeAt(Row(r), 3) < |C|
    ensures Allowed(g, data[r])
    ensures forall h :: h in [C[r], C[RowNth(r, 1)], C[RowNth(r, 2)], C[RowNth(r, 3)]] <==> h in Columns(data[r])
  {
    var x := data[r];
    var hs := [C[r], C[RowNth(r, 1)], C[RowNth(r, 2)], C[RowNth(r, 3)]];
    assert NodeCarries(C, data, g, r);
    forall p | 0 <= p < 4
      ensures hs[p] == ColumnOf(x, Slot(RowNth(r, p)))
    {
      assert NodeCarries(C, data, g, RowNth(r, p));
      assert data[RowNth(r, p)] == data[NodeAt(Row(r), 0)];
    }
    forall q | 0 <= q < 4
      ensures Columns(x)[q] in hs
    {
      var n := NodeAt(Row(r), q);
      SameRow(r, n);
      assert hs[Wrap(q - Slot(r) + 4)] == Columns(x)[q];
    }
  }

  /** The columns of the other nodes of row node r, left to right. */
  function OtherColumns(C: seq<int>, r: int): (hs: seq<int>)
    requires FirstRow <= r && NodeAt(Row(r), 3) < |C|
    ensures |hs| == 3 && forall q :: 0 <= q < 3 ==> hs[q] == C[RowNth(r, q + 1)]
  {
    [C[RowNth(r, 1)], C[RowNth(r, 2)], C[RowNth(r, 3)]]
  }

  /** Choosing row node r of the active column c: covering c and then the other columns hs
      of r one after another goes through the stages ms, ls and keeps the links well formed;
      what is left active is what was active less c and hs, all of which were active. */
  lemma RowStages(m: Links, a: Lists, c: int, r: int) returns (ms: seq<Links>, ls: seq<Lists>, hs: seq<int>)
    requires Wf(m, a) && RowsWhole(m, a) && c in a.active && r in a.cols[c]
    ensures FirstRow <= r && NodeAt(Row(r), 3) < |m.C| && m.C[r] == c
    ensures hs == OtherColumns(m.C, r) && (forall h :: h in hs ==> h in a.active)
    ensures Staged(ms, ls, hs) && ms[0] == CoverLinks(m, a.cols[c], c)
    ensures |ms| == 4 && |ls| == 4 && Wf(ms[3], ls[3]) && RowsWhole(ms[3], ls[3])
    ensures |ls| == 4 && |ls[3].active| < |a.active|
    ensures |ls| == 4 && forall h :: h in ls[3].active <==> h in a.active && h !in [c] + hs[..3]
  {
    var ml, a1 := CoverLinks(m, a.cols[c], c), CoverLists(a, c);
    CoverRowsWhole(m, a, c);
    RowOthers(m, a, c, r);
    hs := OtherColumns(m.C, r);
    var st := Stages(ml, a1, hs);
    ms, ls := st.0, st.1;
    StagedAt(ms, ls, hs, 3);
    WithoutLength(a.active, c);
  }

  /** Choosing row node r of the active column c, as `search` does: the stages of
      RowStages end in well-formed links whose active columns are those that were active
      less the four columns of r's candidate, all four of which were active. */
  lemma RowPlan(m: Links, a: Lists, c: int, r: int, data: seq<Candidate>, g: Grid)
    returns (ms: seq<Links>, ls: seq<Lists>, hs: seq<int>)
    requires Wf(m, a) && RowsWhole(m, a) && c in a.active && r in a.cols[c]
    requires IsGrid(g) && Carries(m.C, data, g)
    ensures FirstRow <= r && NodeAt(Row(r), 3) < |m.C| && Allowed(g, data[r])
    ensures forall h :: h in Columns(data[r]) ==> h in a.active
    ensures hs == OtherColumns(m.C, r) && Staged(ms, ls, hs) && ms[0] == CoverLinks(m, a.cols[c], c)
    ensures |ms| == 4 && |ls| == 4 && Wf(ms[3], ls[3]) && RowsWhole(ms[3], ls[3])
    ensures |ls| == 4 && |ls[3].active| < |a.active|
    ensures |ls| == 4 && forall h :: h in ls[3].active <==> h in a.active && h !in Columns(data[r])
  {
    ms, ls, hs := RowStages(m, a, c, r);
    RowColumns(m.C, data, g, r);
    assert [m.C[r], m.C[RowNth(r, 1)], m.C[RowNth(r, 2)], m.C[RowNth(r, 3)]] == [c] + hs[..3];
  }
}
