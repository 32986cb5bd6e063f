/** The backtracking step of `search` as src/dlx.js:170-176 writes it, evaluated the way
    JavaScript evaluates it. `r = this.solution.pop()` rebinds r, until then the row node
    being tried, to the popped record `{ r, c, num }`; a record has no `left` property, so
    `j = r.left` is undefined, `j !== r` holds, and the first `this.uncover(j.column)` reads
    a property of undefined and throws a TypeError. The intended step keeps the row node
    and uncovers its other columns right to left; that is what Solver.SudokuDLX.Descend
    does. */
module Backtrack {
  import opened Dancing
  import opened Sudoku

  /** The JavaScript values the step handles: undefined, a node of the arena, or a record. */
  datatype Value = Undefined | NodeRef(id: int) | Record(x: Candidate)

  /** The two properties the step reads. */
  datatype Field = Left | Column

  /** The outcome of reading a property: a TypeError, or the value read. */
  datatype Read = TypeError | Got(v: Value)

  /** `v.f`: reading a property of undefined throws; a record has neither property and reads
      undefined; a node of the arena m reads its left neighbour or its column header. */
  function Get(m: Links, v: Value, f: Field): (e: Read)
    ensures e.TypeError? <==> v.Undefined?
    ensures v.Record? ==> e == Got(Undefined)
    ensures v.NodeRef? && 0 <= v.id < |m.L| && 0 <= v.id < |m.C| ==>
      e == Got(NodeRef(if f == Left then m.L[v.id] else m.C[v.id]))
  {
    match v
    case Undefined => TypeError
    case Record(_) => Got(Undefined)
    case NodeRef(n) =>
      if 0 <= n < |m.L| && 0 <= n < |m.C| then Got(NodeRef(if f == Left then m.L[n] else m.C[n]))
      else Got(Undefined)
  }

  /** The backtracking step as written, up to its first uncover: pop the last candidate of
      the partial solution into r, read `j = r.left`, and when `j !== r` read `j.column`
      for the first `uncover`. The result is the column header that uncover would get, or
      the TypeError raised on the way; the loop is skipped only when `j === r`. */
  function BacktrackAsWritten(m: Links, solution: seq<Candidate>): (e: Read)
    requires |solution| > 0
  {
    var r := Record(solution[|solution| - 1]);
    var j := Get(m, r, Left);
    if j.TypeError? then TypeError
    else if j.v == r then Got(r)
    else Get(m, j.v, Column)
  }

  /** Whatever the links and the partial solution, the step as written throws: every
      backtrack of the search ends in a TypeError instead of trying the next row. */
  lemma BacktrackThrows(m: Links, solution: seq<Candidate>)
    requires |solution| > 0
    ensures BacktrackAsWritten(m, solution) == TypeError
  {
    var r := Record(solution[|solution| - 1]);
    assert Get(m, r, Left) == Got(Undefined);
  }

  /** The intended step on row node r of well-formed links: `r.left` is the last node of
      r's row, a row node, and its column is read without error, so uncovering begins. */
  function BacktrackIntended(m: Links, r: int): (e: Read)
    requires 0 <= r < |m.L| && 0 <= r < |m.C|
  {
    var j := Get(m, NodeRef(r), Left);
    if j.TypeError? then TypeError
    else if j.v == NodeRef(r) then Got(NodeRef(r))
    else Get(m, j.v, Column)
  }

  /** In links where r is a row node, the intended step reads the column of r's left
      neighbour, never throwing. */
  lemma BacktrackIntendedReads(m: Links, a: Lists, r: int)
    requires Wf(m, a) && FirstRow <= r < |m.C|
    ensures BacktrackIntended(m, r) == Got(NodeRef(m.C[RowNth(r, 3)]))
  {
    RowLinks(m, a, r);
    RowWithin(|m.C|, r);
  }
}
