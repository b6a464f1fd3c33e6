/** The dbstat cursor: a stack of pages that can be left and taken up again at every row. */
module DbStatCursor {
  import opened DbStat
  import opened DbStatOnce
  import DbStatRows
  import DbStatPath

  datatype StatPage = StatPage(iPgno: nat, iCell: nat, zPath: seq<nat>, kind: Kind, aCell: seq<StatCell>,
                               iRightChildPg: nat, nUnused: int, nMxPayload: nat)

  // ---- What is still to come ----

  /** A page on the stack, d levels above the deepest: decoded, and walked up to cell iCell and its overflow page. */
  predicate FrameOk(f: File, p: StatPage, d: nat) {
    && IsFile(f) && IsTree(f, p.iPgno, d)
    && p.kind == f.pages[p.iPgno].kind && p.iRightChildPg == f.pages[p.iPgno].iRightChildPg
    && |p.aCell| == |f.pages[p.iPgno].cells|
    && p.iCell <= |p.aCell| + (if IsLeaf(p.kind) then 0 else 1)
    && (forall i {:trigger p.aCell[i]} :: p.iCell <= i < |p.aCell| ==>
        CellOk(p.aCell[i], Cells(f, p.iPgno)[i], i == p.iCell))
  }

  predicate CellOk(c: StatCell, decoded: StatCell, current: bool) {
    && c.(iOvfl := 0) == decoded && c.iOvfl <= c.nOvfl == |c.aOvfl| && (!current ==> c.iOvfl == 0)
  }

  /** The rows that are still to come from a page on the stack. */
  function FrameRows(f: File, tree: nat, p: StatPage, d: nat): seq<Row>
    requires FrameOk(f, p, d)
  {
    if p.iCell < |p.aCell| then
      OverflowRows(f.nUsable, tree, p.zPath, p.iCell, Cells(f, p.iPgno)[p.iCell], p.aCell[p.iCell].iOvfl)
      + RowsAfter(f, tree, p.iPgno, p.zPath, d, p.iCell)
    else RowsFrom(f, tree, p.iPgno, p.zPath, d, p.iCell)
  }

  predicate StackOk(f: File, s: seq<StatPage>) {
    s == [] || (|s| <= DEPTH && FrameOk(f, s[|s| - 1], DEPTH - (|s| - 1)) && StackOk(f, s[..|s| - 1]))
  }

  /** The rows that are still to come from the stack, whose top is its last page. */
  function StackRows(f: File, tree: nat, s: seq<StatPage>): seq<Row>
    requires StackOk(f, s)
  {
    if s == [] then [] else FrameRows(f, tree, s[|s| - 1], DEPTH - (|s| - 1)) + StackRows(f, tree, s[..|s| - 1])
  }

  // ---- Steps of the walk ----

  function WithOvfl(p: StatPage, j: nat): StatPage
    requires p.iCell < |p.aCell|
  {
    p.(aCell := p.aCell[p.iCell := p.aCell[p.iCell].(iOvfl := j)])
  }

  /** The next overflow page of the current cell. */
  lemma OverflowStep(f: File, tree: nat, p: StatPage, d: nat)
    requires FrameOk(f, p, d) && p.iCell < |p.aCell| && p.aCell[p.iCell].iOvfl < p.aCell[p.iCell].nOvfl
    ensures var j := p.aCell[p.iCell].iOvfl;
            var q := WithOvfl(p, j + 1);
            && CellOk(p.aCell[p.iCell], Cells(f, p.iPgno)[p.iCell], true)
            && FrameOk(f, q, d)
            && FrameRows(f, tree, p, d) == [OverflowRow(f.nUsable, tree, p.zPath, p.iCell, p.aCell[p.iCell], j)]
                + FrameRows(f, tree, q, d)
  {
    var c, j := p.aCell[p.iCell], p.aCell[p.iCell].iOvfl;
    assert CellOk(c, Cells(f, p.iPgno)[p.iCell], true);
    var q := WithOvfl(p, j + 1);
    forall i | q.iCell <= i < |q.aCell|
      ensures CellOk(q.aCell[i], Cells(f, q.iPgno)[i], i == q.iCell)
    {
      assert CellOk(p.aCell[i], Cells(f, p.iPgno)[i], i == p.iCell);
    }
  }

  /** The next cell, when its overflow chain is over. */
  lemma CellStep(f: File, tree: nat, p: StatPage, d: nat)
    requires FrameOk(f, p, d) && p.iCell < |p.aCell| && p.aCell[p.iCell].iOvfl >= p.aCell[p.iCell].nOvfl
    ensures var q := p.(iCell := p.iCell + 1);
            && FrameOk(f, q, d)
            && FrameRows(f, tree, p, d) == RowsAfter(f, tree, p.iPgno, p.zPath, d, p.iCell)
            && FrameRows(f, tree, q, d) == RowsFrom(f, tree, p.iPgno, p.zPath, d, p.iCell + 1)
  {
    var q := p.(iCell := p.iCell + 1);
    assert CellOk(p.aCell[p.iCell], Cells(f, p.iPgno)[p.iCell], true);
    forall i | q.iCell <= i < |q.aCell|
      ensures CellOk(q.aCell[i], Cells(f, q.iPgno)[i], i == q.iCell)
    {
      assert CellOk(p.aCell[i], Cells(f, p.iPgno)[i], i == p.iCell);
    }
    if q.iCell < |q.aCell| { assert CellOk(q.aCell[q.iCell], Cells(f, q.iPgno)[q.iCell], true); }
  }

  /** The page that the walk goes down to. */
  function ChildPage(p: StatPage): nat
    requires p.iCell <= |p.aCell|
  {
    if p.iCell == |p.aCell| then p.iRightChildPg else p.aCell[p.iCell].iChildPg
  }

  /** Going down, after the overflow chain of the current cell or, after the last cell, to the right child. */
  lemma ChildStep(f: File, tree: nat, p: StatPage, d: nat)
    requires FrameOk(f, p, d) && p.iCell <= |p.aCell| && !IsLeaf(p.kind)
    requires p.iCell < |p.aCell| ==> p.aCell[p.iCell].iOvfl >= p.aCell[p.iCell].nOvfl
    ensures var q := p.(iCell := p.iCell + 1);
            && d > 1 && IsTree(f, ChildPage(p), d - 1) && FrameOk(f, q, d)
            && FrameRows(f, tree, p, d) == Rows(f, tree, ChildPage(p), p.zPath + [p.iCell], d - 1)
                + FrameRows(f, tree, q, d)
  {
    if p.iCell < |p.aCell| {
      CellStep(f, tree, p, d);
      assert CellOk(p.aCell[p.iCell], Cells(f, p.iPgno)[p.iCell], true);
    } else {
      var below := Rows(f, tree, ChildPage(p), p.zPath + [p.iCell], d - 1);
      assert below + [] == below;
    }
  }

  lemma FrameOver(f: File, tree: nat, p: StatPage, d: nat)
    requires FrameOk(f, p, d) && p.iCell >= |p.aCell| && (IsLeaf(p.kind) || p.iCell > |p.aCell|)
    ensures FrameRows(f, tree, p, d) == []
  {
  }

  /** A page as it is when it has just been decoded. */
  function Decoded(f: File, pg: nat, path: seq<nat>): StatPage
    requires IsFile(f) && pg in f.pages && f.pages[pg].BtreePage?
  {
    var p := f.pages[pg];
    StatPage(pg, 0, path, p.kind, Cells(f, pg), p.iRightChildPg, p.nUnused, LargestRecord(p.kind, p.cells))
  }

  /** A decoded page, on top of the stack, is followed by what is below it. */
  lemma DecodedOk(f: File, tree: nat, pg: nat, path: seq<nat>, d: nat)
    requires IsFile(f) && IsTree(f, pg, d)
    ensures var p := Decoded(f, pg, path);
            && FrameOk(f, p, d) && Rows(f, tree, pg, path, d) == [PageRow(f, tree, pg, path)] + FrameRows(f, tree, p, d)
  {
    var p := Decoded(f, pg, path);
    forall i | 0 <= i < |p.aCell|
      ensures CellOk(p.aCell[i], Cells(f, pg)[i], i == 0)
    {
    }
  }

  lemma Pushed(f: File, tree: nat, s: seq<StatPage>, p: StatPage)
    requires StackOk(f, s) && |s| < DEPTH && FrameOk(f, p, DEPTH - |s|)
    ensures StackOk(f, s + [p])
    ensures StackRows(f, tree, s + [p]) == FrameRows(f, tree, p, DEPTH - |s|) + StackRows(f, tree, s)
  {
    LastOf(s, p, s + [p]);
    OkOnto(f, s, p, s + [p]);
    PushedOnto(f, tree, s, p, s + [p]);
  }

  lemma OkOnto(f: File, s: seq<StatPage>, p: StatPage, t: seq<StatPage>)
    requires StackOk(f, s) && |s| < DEPTH && FrameOk(f, p, DEPTH - |s|)
    requires |t| == |s| + 1 && t[|t| - 1] == p && t[..|t| - 1] == s
    ensures StackOk(f, t)
  {
  }

  lemma PushedOnto(f: File, tree: nat, s: seq<StatPage>, p: StatPage, t: seq<StatPage>)
    requires StackOk(f, s) && |s| < DEPTH && FrameOk(f, p, DEPTH - |s|)
    requires |t| == |s| + 1 && t[|t| - 1] == p && t[..|t| - 1] == s && StackOk(f, t)
    ensures StackRows(f, tree, t) == FrameRows(f, tree, p, DEPTH - |s|) + StackRows(f, tree, s)
  {
    TopFrame(f, tree, t, |s|, DEPTH - |s|);
  }

  lemma TopFrame(f: File, tree: nat, t: seq<StatPage>, n: nat, d: nat)
    requires StackOk(f, t) && |t| == n + 1 && d == DEPTH - n
    ensures FrameOk(f, t[n], d) && StackOk(f, t[..n])
    ensures StackRows(f, tree, t) == FrameRows(f, tree, t[n], d) + StackRows(f, tree, t[..n])
  {
  }

  lemma LastOf(s: seq<StatPage>, p: StatPage, t: seq<StatPage>)
    requires t == s + [p]
    ensures |t| == |s| + 1 && t[|t| - 1] == p && t[..|t| - 1] == s
  {
  }

  // ---- Decoding ----

  /** The pages of an overflow chain, each found on the one before. */
  method ReadChain(f: File, first: nat, nOvfl: nat) returns (aOvfl: seq<nat>)
    ensures aOvfl == Chain(f, first, nOvfl)
  {
    aOvfl := [];
    var pg := first;
    for j := 0 to nOvfl
      invariant |aOvfl| == j && aOvfl + Chain(f, pg, nOvfl - j) == Chain(f, first, nOvfl)
    {
      aOvfl := aOvfl + [pg];
      pg := Next(f, pg);
    }
  }

  method DecodeOne(f: File, kind: Kind, c: RawCell) returns (cell: StatCell)
    requires IsFile(f)
    ensures cell == DecodeCell(f, kind, c)
  {
    var iChildPg := if IsLeaf(kind) then 0 else c.iChildPg;
    var nPayload := if kind == TableInterior then 0 else c.nPayload;
    LocalPayloadOk(f.nUsable, kind, nPayload);
    var nLocal := LocalPayload(f.nUsable, kind, nPayload);
    OverflowOk(nPayload - nLocal, f.nUsable);
    if nPayload > nLocal {
      var nOvfl := ((nPayload - nLocal) + f.nUsable - 4 - 1) / (f.nUsable - 4);
      var aOvfl := ReadChain(f, c.iOvfl, nOvfl);
      cell := StatCell(nLocal, iChildPg, nOvfl, aOvfl, (nPayload - nLocal) - (nOvfl - 1) * (f.nUsable - 4), 0);
    } else {
      cell := StatCell(nLocal, iChildPg, 0, [], 0, 0);
    }
  }

  method DecodePage(f: File, pg: nat, path: seq<nat>) returns (p: StatPage)
    requires IsFile(f) && pg in f.pages && f.pages[pg].BtreePage?
    ensures p == Decoded(f, pg, path)
  {
    var raw := f.pages[pg];
    var aCell, nMxPayload: nat := [], 0;
    for i := 0 to |raw.cells|
      invariant aCell == Cells(f, pg)[..i] && nMxPayload == LargestRecord(raw.kind, raw.cells[..i])
    {
      var cell := DecodeOne(f, raw.kind, raw.cells[i]);
      assert raw.cells[..i + 1][..i] == raw.cells[..i];
      if raw.kind != TableInterior && raw.cells[i].nPayload > nMxPayload { nMxPayload := raw.cells[i].nPayload; }
      aCell := aCell + [cell];
    }
    assert raw.cells[..|raw.cells|] == raw.cells;
    p := StatPage(pg, 0, path, raw.kind, aCell, raw.iRightChildPg, raw.nUnused, nMxPayload);
  }

  method CountLocal(aCell: seq<StatCell>) returns (nPayload: nat)
    ensures nPayload == LocalBytes(aCell)
  {
    nPayload := 0;
    for i := 0 to |aCell|
      invariant nPayload == LocalBytes(aCell[..i])
    {
      assert aCell[..i + 1][..i] == aCell[..i];
      nPayload := nPayload + aCell[i].nLocal;
    }
    assert aCell[..|aCell|] == aCell;
  }

  // ---- The cursor ----

  class StatCursor {
    const f: File
    const roots: seq<nat>
    const isAgg: bool
    var iStmt: nat
    var isEof: bool
    const aPage: array<StatPage>
    var iPage: int

    /** The rows that are still to come from the tree that is being walked. */
    ghost var rest: seq<Row>

    // The values of the columns.
    var iPageno: nat
    var iTree: nat
    var zPath: Place
    var zPagetype: PageType
    var nPage: nat
    var nCell: nat
    var nMxPayload: nat
    var nUnused: int
    var nPayload: nat

    ghost function Stack(): seq<StatPage>
      requires -1 <= iPage < aPage.Length
      reads this`iPage, aPage
    {
      aPage[..iPage + 1]
    }

    ghost predicate Valid()
      reads this`iPage, this`iStmt, this`rest, aPage
    {
      && AreRoots(f, roots) && aPage.Length == DEPTH
      && iStmt <= |roots| && -1 <= iPage < DEPTH && (iPage >= 0 ==> iStmt > 0)
      && StackOk(f, Stack()) && rest == StackRows(f, Tree(), Stack())
    }

    ghost function Tree(): nat
      reads this`iStmt
    {
      if iStmt == 0 then 0 else iStmt - 1
    }

    /** All the rows that are still to come. */
    ghost function Pending(): seq<Row>
      requires Valid()
      reads this`iPage, this`iStmt, this`rest, aPage
    {
      rest + TreeRows(f, roots, iStmt)
    }

    ghost function Counts(): Totals
      reads this`nPage, this`nCell, this`nMxPayload, this`nUnused, this`nPayload
    {
      Totals(nPage, nCell, nPayload, nUnused, nMxPayload)
    }

    /** The columns show a row. */
    ghost predicate Shows(r: Row)
      reads this`iPageno, this`iTree, this`zPath, this`zPagetype, this`nPage, this`nCell, this`nMxPayload, this`nUnused
      reads this`nPayload
    {
      r == Row(iTree, iPageno, zPath, zPagetype, nCell, nPayload, nUnused, nMxPayload) && nPage == 1
    }

    constructor (f: File, roots: seq<nat>, isAgg: bool)
      requires AreRoots(f, roots)
      ensures Valid() && Pending() == TreeRows(f, roots, 0) && this.f == f && this.roots == roots && this.isAgg == isAgg
      ensures fresh(aPage) && !isEof && iPage == -1 && iStmt == 0
    {
      this.f, this.roots, this.isAgg := f, roots, isAgg;
      iStmt, isEof, iPage, rest := 0, false, -1, [];
      aPage := new StatPage[DEPTH](_ => StatPage(0, 0, [], TableLeaf, [], 0, 0, 0));
      iPageno, iTree, zPath, zPagetype := 0, 0, OnPage([]), Leaf;
      nPage, nCell, nMxPayload, nUnused, nPayload := 0, 0, 0, 0, 0;
    }

    method ResetCounts()
      modifies this`nPage, this`nCell, this`nMxPayload, this`nUnused, this`nPayload
      ensures Counts() == Zero
    {
      nPage, nCell, nMxPayload, nUnused, nPayload := 0, 0, 0, 0, 0;
    }

    /** The page on top of the stack. */
    ghost function Top(): (p: StatPage)
      requires Valid() && iPage >= 0
      reads this`iPage, this`iStmt, this`rest, aPage
      ensures p == aPage[iPage] && FrameOk(f, p, DEPTH - iPage)
    {
      Stack()[iPage]
    }

    ghost function TopRows(): seq<Row>
      requires Valid() && iPage >= 0
      reads this`iPage, this`iStmt, this`rest, aPage
    {
      FrameRows(f, Tree(), Top(), DEPTH - iPage)
    }

    /** Replaces the page on top of the stack, after some of its rows. */
    method SetTop(p: StatPage, ghost rows: seq<Row>, ghost d: nat)
      requires Valid() && iPage >= 0 && d == DEPTH - iPage && FrameOk(f, p, d)
      requires TopRows() == rows + FrameRows(f, Tree(), p, d)
      modifies aPage, this`rest
      ensures Valid() && aPage[iPage] == p && old(rest) == rows + rest
    {
      ghost var below := Stack()[..iPage];
      Pushed(f, Tree(), below, p);
      Replaced(rows, FrameRows(f, Tree(), p, d), StackRows(f, Tree(), below));
      aPage[iPage] := p;
      assert Stack() == below + [p];
      rest := StackRows(f, Tree(), Stack());
    }

    /** Counts an overflow page of the current cell of p and, one row at a time, shows it. */
    method CountOverflow(p: StatPage, c: StatCell, ghost r: Row)
      requires f.nUsable > 4 && c.iOvfl < c.nOvfl == |c.aOvfl| && iStmt > 0
      requires r == OverflowRow(f.nUsable, Tree(), p.zPath, p.iCell, c, c.iOvfl)
      modifies this`iPageno, this`iTree, this`zPath, this`zPagetype
      modifies this`nPage, this`nCell, this`nMxPayload, this`nUnused, this`nPayload
      ensures Counts() == Count(old(Counts()), r)
      ensures !isAgg && old(Counts()) == Zero ==> Shows(r)
    {
      nPage := nPage + 1;
      if c.iOvfl < c.nOvfl - 1 {
        nPayload := nPayload + (f.nUsable - 4);
      } else {
        nPayload := nPayload + c.nLastOvfl;
        nUnused := nUnused + (f.nUsable - 4 - c.nLastOvfl);
      }
      if !isAgg {
        iTree, iPageno, zPagetype, zPath := iStmt - 1, c.aOvfl[c.iOvfl], Overflow, OnChain(p.zPath, p.iCell, c.iOvfl);
      }
    }

    method NextOverflow() returns (ghost r: Row)
      requires Valid() && iPage >= 0 && HasOverflow(aPage[iPage])
      modifies aPage, this`rest
      ensures Valid() && old(rest) == [r] + rest
      ensures var p := old(aPage[iPage]);
              && p.aCell[p.iCell].nOvfl == |p.aCell[p.iCell].aOvfl| && f.nUsable > 4
              && r == OverflowRow(f.nUsable, Tree(), p.zPath, p.iCell, p.aCell[p.iCell], p.aCell[p.iCell].iOvfl)
              && aPage[iPage] == WithOvfl(p, p.aCell[p.iCell].iOvfl + 1)
    {
      var p := aPage[iPage];
      var c := p.aCell[p.iCell];
      OverflowStep(f, Tree(), Top(), DEPTH - iPage);
      r := OverflowRow(f.nUsable, Tree(), p.zPath, p.iCell, c, c.iOvfl);
      SetTop(WithOvfl(p, c.iOvfl + 1), [r], DEPTH - iPage);
    }

    /** One row of an overflow page. In aggregate mode only the counts change. */
    method EmitOverflow() returns (ghost r: Row)
      requires Valid() && iPage >= 0 && HasOverflow(aPage[iPage])
      modifies aPage, this`rest, this`iPageno, this`iTree, this`zPath, this`zPagetype
      modifies this`nPage, this`nCell, this`nMxPayload, this`nUnused, this`nPayload
      ensures Valid() && old(rest) == [r] + rest && Counts() == Count(old(Counts()), r)
      ensures !isAgg && old(Counts()) == Zero ==> Shows(r)
      ensures aPage[iPage] == WithOvfl(old(aPage[iPage]), old(aPage[iPage].aCell[aPage[iPage].iCell].iOvfl) + 1)
    {
      var p := aPage[iPage];
      r := NextOverflow();
      CountOverflow(p, p.aCell[p.iCell], r);
    }

    /** What some rows of a walk do: they are taken off the rows to come and counted, or one of them is shown. */
    ghost predicate Walked(todo: seq<Row>, counts: Totals, stop: bool, rows: seq<Row>)
      reads this, aPage
    {
      && Valid() && iPage >= 0
      && todo == rows + rest && Counts() == Counted(counts, rows)
      && (if isAgg then !stop else if stop then |rows| == 1 && (counts == Zero ==> Shows(rows[0])) else |rows| == 0)
    }

    /** Walks the rest of the current overflow chain or, one row at a time, stops after its next page. */
    method WalkChain() returns (stop: bool, ghost rows: seq<Row>)
      requires Valid() && iPage >= 0 && aPage[iPage].iCell < |aPage[iPage].aCell|
      modifies aPage, this`rest, this`iPageno, this`iTree, this`zPath, this`zPagetype
      modifies this`nPage, this`nCell, this`nMxPayload, this`nUnused, this`nPayload
      ensures Walked(old(rest), old(Counts()), stop, rows)
      ensures SamePage(old(aPage[iPage]), aPage[iPage])
      ensures !stop ==> ChainOver(aPage[iPage])
    {
      rows, stop := [], false;
      ghost var todo, counts := rest, Counts();
      NothingWalked();
      while !stop && HasOverflow(aPage[iPage])
        invariant Walked(todo, counts, stop, rows)
        invariant SamePage(old(aPage[iPage]), aPage[iPage])
        decreases aPage[iPage].aCell[aPage[iPage].iCell].nOvfl - aPage[iPage].aCell[aPage[iPage].iCell].iOvfl
      {
        stop, rows := WalkPage(todo, counts, rows);
      }
    }

    lemma NothingWalked()
      requires Valid() && iPage >= 0
      ensures Walked(rest, Counts(), false, [])
    {
    }

    method WalkPage(ghost todo: seq<Row>, ghost counts: Totals, ghost rows: seq<Row>)
      returns (stop: bool, ghost more: seq<Row>)
      requires Walked(todo, counts, false, rows)
      requires HasOverflow(aPage[iPage])
      modifies aPage, this`rest, this`iPageno, this`iTree, this`zPath, this`zPagetype
      modifies this`nPage, this`nCell, this`nMxPayload, this`nUnused, this`nPayload
      ensures Walked(todo, counts, stop, more) && stop == !isAgg
      ensures aPage[iPage] == WithOvfl(old(aPage[iPage]), old(aPage[iPage].aCell[aPage[iPage].iCell].iOvfl) + 1)
    {
      ghost var mid := rest;
      ghost var r := EmitOverflow();
      Regrouped(todo, rows, [r], mid, rest);
      CountedSnoc(counts, rows, r);
      more, stop := rows + [r], !isAgg;
    }

    /**
     Walks the cells of the top page from the current one on. On a leaf all their overflow chains are walked; on an
     interior page the walk stops at the end of the chain, before the child. One row at a time, it stops after a row.
     */
    method WalkCells() returns (stop: bool, ghost rows: seq<Row>)
      requires Valid() && iPage >= 0
      modifies aPage, this`rest, this`iPageno, this`iTree, this`zPath, this`zPagetype
      modifies this`nPage, this`nCell, this`nMxPayload, this`nUnused, this`nPayload
      ensures Walked(old(rest), old(Counts()), stop, rows)
      ensures !stop ==> CellsOver(aPage[iPage])
    {
      rows, stop := [], false;
      ghost var todo, counts := rest, Counts();
      NothingWalked();
      while aPage[iPage].iCell < |aPage[iPage].aCell|
        invariant !stop && Walked(todo, counts, false, rows)
        decreases |aPage[iPage].aCell| - aPage[iPage].iCell
      {
        stop, rows := WalkCell(todo, counts, rows);
        if stop || aPage[iPage].iRightChildPg != 0 { break; }
        NextCell();
      }
    }

    method WalkCell(ghost todo: seq<Row>, ghost counts: Totals, ghost rows: seq<Row>)
      returns (stop: bool, ghost all: seq<Row>)
      requires Walked(todo, counts, false, rows) && aPage[iPage].iCell < |aPage[iPage].aCell|
      modifies aPage, this`rest, this`iPageno, this`iTree, this`zPath, this`zPagetype
      modifies this`nPage, this`nCell, this`nMxPayload, this`nUnused, this`nPayload
      ensures Walked(todo, counts, stop, all)
      ensures SamePage(old(aPage[iPage]), aPage[iPage]) && (!stop ==> ChainOver(aPage[iPage]))
    {
      ghost var mid := rest;
      ghost var more;
      stop, more := WalkChain();
      all := rows + more;
      Regrouped(todo, rows, more, mid, rest);
      CountedConcat(counts, rows, more);
      assert !isAgg ==> all == more;
    }

    method NextCell()
      requires Valid() && iPage >= 0 && aPage[iPage].iCell < |aPage[iPage].aCell| && ChainOver(aPage[iPage])
      requires aPage[iPage].iRightChildPg == 0
      modifies aPage, this`rest
      ensures Valid() && rest == old(rest) && aPage[iPage] == old(aPage[iPage]).(iCell := old(aPage[iPage]).iCell + 1)
    {
      var p := aPage[iPage];
      CellStep(f, Tree(), Top(), DEPTH - iPage);
      SetTop(p.(iCell := p.iCell + 1), [], DEPTH - iPage);
    }

    /** Puts a page on the stack and reads it. */
    method Push(pg: nat, path: seq<nat>, ghost r: Row, ghost d: nat)
      requires Valid() && iPage + 1 < DEPTH && iStmt > 0 && d == DEPTH - (iPage + 1)
      requires IsTree(f, pg, d) && r == PageRow(f, Tree(), pg, path)
      modifies aPage, this`rest, this`iPage
      ensures Valid() && iPage == old(iPage) + 1 && aPage[iPage] == Decoded(f, pg, path)
      ensures Rows(f, Tree(), pg, path, d) + old(rest) == [r] + rest
    {
      ghost var below := Stack();
      var p := DecodePage(f, pg, path);
      PushedOk(below, pg, path, p, r);
      Put(p);
    }

    method Put(p: StatPage)
      requires Valid() && iPage + 1 < DEPTH && iStmt > 0 && StackOk(f, Stack() + [p])
      modifies aPage, this`rest, this`iPage
      ensures Valid() && iPage == old(iPage) + 1 && aPage[iPage] == p
      ensures rest == StackRows(f, Tree(), old(Stack()) + [p])
    {
      ghost var stack := Stack() + [p];
      iPage := iPage + 1;
      aPage[iPage] := p;
      assert Stack() == stack;
      rest := StackRows(f, Tree(), stack);
    }

    lemma PushedOk(below: seq<StatPage>, pg: nat, path: seq<nat>, p: StatPage, r: Row)
      requires StackOk(f, below) && |below| < DEPTH && IsFile(f) && IsTree(f, pg, DEPTH - |below|)
      requires p == Decoded(f, pg, path) && r == PageRow(f, Tree(), pg, path)
      ensures StackOk(f, below + [p])
      ensures Rows(f, Tree(), pg, path, DEPTH - |below|) + StackRows(f, Tree(), below)
           == [r] + StackRows(f, Tree(), below + [p])
    {
      DecodedOk(f, Tree(), pg, path, DEPTH - |below|);
      Pushed(f, Tree(), below, p);
      Replaced([r], FrameRows(f, Tree(), p, DEPTH - |below|), StackRows(f, Tree(), below));
    }

    /** Counts the page on top of the stack and, one row at a time, shows it. */
    method CountPage(p: StatPage, ghost r: Row)
      requires IsFile(f) && p.iPgno in f.pages && f.pages[p.iPgno].BtreePage? && iStmt > 0
      requires p == Decoded(f, p.iPgno, p.zPath) && r == PageRow(f, Tree(), p.iPgno, p.zPath)
      modifies this`iPageno, this`iTree, this`zPath, this`zPagetype
      modifies this`nPage, this`nCell, this`nMxPayload, this`nUnused, this`nPayload
      ensures Counts() == Count(old(Counts()), r)
      ensures !isAgg && old(Counts()) == Zero ==> Shows(r)
    {
      AddCounts(p);
      iTree, iPageno := iStmt - 1, p.iPgno;
      zPagetype := if IsLeaf(p.kind) then Leaf else Internal;
      if !isAgg { zPath := OnPage(p.zPath); }
    }

    method AddCounts(p: StatPage)
      modifies this`nPage, this`nCell, this`nMxPayload, this`nUnused, this`nPayload
      ensures Counts() == Totals(old(nPage) + 1, old(nCell) + |p.aCell|, old(nPayload) + LocalBytes(p.aCell),
                                 old(nUnused) + p.nUnused, Max(old(nMxPayload), p.nMxPayload))
    {
      nPage := nPage + 1;
      nCell := nCell + |p.aCell|;
      nUnused := nUnused + p.nUnused;
      if p.nMxPayload > nMxPayload { nMxPayload := p.nMxPayload; }
      var n := CountLocal(p.aCell);
      nPayload := nPayload + n;
    }

    method Visit(pg: nat, path: seq<nat>, ghost d: nat) returns (ghost r: Row)
      requires Valid() && iPage + 1 < DEPTH && iStmt > 0 && d == DEPTH - (iPage + 1) && IsTree(f, pg, d)
      modifies aPage, this`rest, this`iPage, this`iPageno, this`iTree, this`zPath, this`zPagetype
      modifies this`nPage, this`nCell, this`nMxPayload, this`nUnused, this`nPayload
      ensures Valid() && iPage == old(iPage) + 1
      ensures Rows(f, Tree(), pg, path, d) + old(rest) == [r] + rest
      ensures Counts() == Count(old(Counts()), r) && (!isAgg && old(Counts()) == Zero ==> Shows(r))
    {
      r := PageRow(f, Tree(), pg, path);
      Push(pg, path, r, d);
      CountPage(aPage[iPage], r);
    }

    /** Goes down to the next child of the top page. */
    method Descend() returns (ghost r: Row)
      requires Valid() && iPage >= 0 && ChainOver(aPage[iPage]) && aPage[iPage].iRightChildPg != 0
      requires aPage[iPage].iCell <= |aPage[iPage].aCell|
      modifies aPage, this`rest, this`iPage, this`iPageno, this`iTree, this`zPath, this`zPagetype
      modifies this`nPage, this`nCell, this`nMxPayload, this`nUnused, this`nPayload
      ensures Valid() && iPage == old(iPage) + 1 && old(rest) == [r] + rest
      ensures Counts() == Count(old(Counts()), r) && (!isAgg && old(Counts()) == Zero ==> Shows(r))
    {
      var p := aPage[iPage];
      PassChild(p, DEPTH - (iPage + 1));
      r := Visit(ChildPage(p), p.zPath + [p.iCell], DEPTH - (iPage + 1));
    }

    /** Moves the top page past the child that the walk goes down to. */
    method PassChild(p: StatPage, ghost d: int)
      requires Valid() && iPage >= 0 && p == aPage[iPage] && d == DEPTH - (iPage + 1)
      requires ChainOver(p) && p.iRightChildPg != 0 && p.iCell <= |p.aCell|
      modifies aPage, this`rest
      ensures Valid() && d > 0 && IsTree(f, ChildPage(p), d)
      ensures old(rest) == Rows(f, Tree(), ChildPage(p), p.zPath + [p.iCell], d) + rest
    {
      ChildStep(f, Tree(), Top(), d + 1);
      SetTop(p.(iCell := p.iCell + 1), Rows(f, Tree(), ChildPage(p), p.zPath + [p.iCell], d), d + 1);
    }

    /** Takes a page that is over off the stack. */
    method Pop()
      requires Valid() && iPage >= 0
      requires var p := aPage[iPage]; p.iCell >= |p.aCell| && (p.iRightChildPg == 0 || p.iCell > |p.aCell|)
      modifies this`iPage
      ensures Valid() && iPage == old(iPage) - 1 && rest == old(rest)
    {
      FrameOver(f, Tree(), Top(), DEPTH - iPage);
      assert Stack()[..iPage] == aPage[..iPage];
      iPage := iPage - 1;
    }

    /** The tree that is being walked: walks on, and then up or down one level. */
    method WalkOn() returns (stop: bool, ghost rows: seq<Row>)
      requires Valid() && iPage >= 0 && (!isAgg ==> Counts() == Zero)
      modifies aPage, this`rest, this`iPage, this`iPageno, this`iTree, this`zPath, this`zPagetype
      modifies this`nPage, this`nCell, this`nMxPayload, this`nUnused, this`nPayload
      ensures Moved(old(rest), old(Counts()), old(iPage), stop, rows)
    {
      ghost var todo, counts := rest, Counts();
      stop, rows := WalkCells();
      stop, rows := UpOrDown(todo, counts, stop, rows);
    }

    /** What a move does: it takes rows off the rows to come, shows one or counts them all, or leaves a page. */
    ghost predicate Moved(todo: seq<Row>, counts: Totals, at: int, stop: bool, rows: seq<Row>)
      reads this, aPage
    {
      && Valid() && todo == rows + rest
      && (!stop ==> |rows| > 0 || iPage == at - 1)
      && (isAgg ==> !stop && Counts() == Counted(counts, rows))
      && (!isAgg ==> if stop then |rows| == 1 && Shows(rows[0]) else |rows| == 0)
    }

    method UpOrDown(ghost todo: seq<Row>, ghost counts: Totals, stop0: bool, ghost rows: seq<Row>)
      returns (stop: bool, ghost all: seq<Row>)
      requires Walked(todo, counts, stop0, rows) && (!stop0 ==> CellsOver(aPage[iPage])) && (!isAgg ==> counts == Zero)
      modifies aPage, this`rest, this`iPage, this`iPageno, this`iTree, this`zPath, this`zPagetype
      modifies this`nPage, this`nCell, this`nMxPayload, this`nUnused, this`nPayload
      ensures Moved(todo, counts, old(iPage), stop, all)
    {
      var p := aPage[iPage];
      if stop0 {
        stop, all := true, rows;
      } else if p.iRightChildPg == 0 || p.iCell > |p.aCell| {
        Up(todo, counts, rows);
        stop, all := false, rows;
      } else {
        all := Down(todo, counts, rows);
        stop := !isAgg;
      }
    }

    method Up(ghost todo: seq<Row>, ghost counts: Totals, ghost rows: seq<Row>)
      requires Walked(todo, counts, false, rows)
      requires var p := aPage[iPage]; p.iCell >= |p.aCell| && (p.iRightChildPg == 0 || p.iCell > |p.aCell|)
      modifies this`iPage, this`rest
      ensures Moved(todo, counts, old(iPage), false, rows)
    {
      Pop();
    }

    method Down(ghost todo: seq<Row>, ghost counts: Totals, ghost rows: seq<Row>) returns (ghost all: seq<Row>)
      requires Walked(todo, counts, false, rows)
      requires var p := aPage[iPage]; ChainOver(p) && p.iRightChildPg != 0 && p.iCell <= |p.aCell|
      requires !isAgg ==> counts == Zero
      modifies aPage, this`rest, this`iPage, this`iPageno, this`iTree, this`zPath, this`zPagetype
      modifies this`nPage, this`nCell, this`nMxPayload, this`nUnused, this`nPayload
      ensures Moved(todo, counts, old(iPage), !isAgg, all)
    {
      ghost var mid := rest;
      ghost var r := Descend();
      all := rows + [r];
      Regrouped(todo, rows, [r], mid, rest);
      CountedSnoc(counts, rows, r);
    }

    /** Takes up the next tree. */
    method NextRoot() returns (ghost r: Row)
      requires Valid() && iPage == -1 && iStmt < |roots|
      modifies aPage, this`rest, this`iPage, this`iStmt, this`iPageno, this`iTree, this`zPath, this`zPagetype
      modifies this`nPage, this`nCell, this`nMxPayload, this`nUnused, this`nPayload
      ensures Valid() && iPage == 0 && iStmt == old(iStmt) + 1
      ensures Rows(f, old(iStmt), roots[old(iStmt)], [], DEPTH) == [r] + rest
      ensures Counts() == Count(Zero, r) && (!isAgg ==> Shows(r))
    {
      ResetCounts();
      var iRoot := roots[iStmt];
      iStmt := iStmt + 1;
      r := Visit(iRoot, [], DEPTH);
    }

    /** Goes to the next page, or up one level. */
    method NextRowOrUp() returns (stop: bool, ghost rows: seq<Row>)
      requires Valid() && !isAgg && (iPage >= 0 || iStmt < |roots|)
      modifies aPage, this`rest, this`iPage, this`iStmt, this`iPageno, this`iTree, this`zPath, this`zPagetype
      modifies this`nPage, this`nCell, this`nMxPayload, this`nUnused, this`nPayload
      ensures Valid() && old(Pending()) == rows + Pending()
      ensures if stop then |rows| == 1 && Shows(rows[0]) else |rows| == 0 && iPage < old(iPage)
    {
      if iPage < 0 {
        assert rest == [];
        ghost var r := NextRoot();
        stop, rows := true, [r];
      } else {
        ResetCounts();
        stop, rows := WalkOn();
      }
      Replaced(rows, rest, TreeRows(f, roots, iStmt));
    }

    /** One row at a time: the cursor moves to the next row of the walk. */
    method StatNext()
      requires Valid() && !isAgg
      modifies this, aPage
      ensures Valid()
      ensures var todo := old(Pending());
              if todo == [] then isEof && Pending() == []
              else Shows(todo[0]) && Pending() == todo[1..] && isEof == old(isEof)
    {
      ghost var todo := Pending();
      var stop := false;
      while !stop
        invariant Valid() && isEof == old(isEof)
        invariant if stop then |todo| > 0 && Shows(todo[0]) && Pending() == todo[1..] else Pending() == todo
        decreases if stop then 0 else 1, iPage
      {
        if iPage < 0 && iStmt == |roots| {
          isEof := true;
          return;
        }
        ghost var rows;
        stop, rows := NextRowOrUp();
      }
    }

    /** In aggregate mode: the whole of the next tree is walked, and the counts are those of all its pages. */
    method StatNextAggregate()
      requires Valid() && isAgg && iPage == -1
      modifies this, aPage
      ensures Valid() && iPage == -1
      ensures var t := old(iStmt);
              if t == |roots| then isEof && iStmt == t
              else iStmt == t + 1 && isEof == old(isEof) && Counts() == Counted(Zero, Rows(f, t, roots[t], [], DEPTH))
    {
      if iStmt == |roots| {
        isEof := true;
        return;
      }
      ghost var todo := Rows(f, iStmt, roots[iStmt], [], DEPTH);
      ghost var r := NextRoot();
      ghost var done := [r];
      OneCounted(r);
      while iPage >= 0
        invariant Valid() && isEof == old(isEof) && iStmt == old(iStmt) + 1
        invariant todo == done + rest && Counts() == Counted(Zero, done)
        decreases |rest|, iPage
      {
        done := WalkMore(todo, done);
      }
      assert done == todo;
    }

    lemma OneCounted(r: Row)
      ensures Counted(Zero, [r]) == Count(Zero, r)
    {
      CountedSnoc(Zero, [], r);
      assert [] + [r] == [r];
    }

    method WalkMore(ghost todo: seq<Row>, ghost done: seq<Row>) returns (ghost more: seq<Row>)
      requires Valid() && isAgg && iPage >= 0 && todo == done + rest && Counts() == Counted(Zero, done)
      modifies aPage, this`rest, this`iPage, this`iPageno, this`iTree, this`zPath, this`zPagetype
      modifies this`nPage, this`nCell, this`nMxPayload, this`nUnused, this`nPayload
      ensures Valid() && todo == more + rest && Counts() == Counted(Zero, more)
      ensures |rest| < |old(rest)| || (|rest| == |old(rest)| && iPage < old(iPage))
    {
      ghost var mid := rest;
      ghost var stop, rows;
      stop, rows := WalkOn();
      more := done + rows;
      Regrouped(todo, done, rows, mid, rest);
      CountedConcat(Zero, done, rows);
    }

    method CurrentRow() returns (r: Row)
      requires nPage == 1
      ensures Shows(r)
    {
      r := Row(iTree, iPageno, zPath, zPagetype, nCell, nPayload, nUnused, nMxPayload);
    }
  }

  // ---- Whole scans ----

  lemma ScanLaws(f: File, roots: seq<nat>, rows: seq<Row>)
    requires AreRoots(f, roots) && rows == TreeRows(f, roots, 0)
    ensures NoRepeat(Spots(rows)) && Set(Pgnos(rows)) == AllPages(f, roots, 0)
    ensures NoRepeat(Pgnos(rows)) <==> NothingShared(f, roots, 0)
    ensures DbStatRows.ShowTrees(f, roots, rows, 0)
    ensures DbStatPath.IsStored(f) ==> (DbStatPath.TreesAscend(rows) <==> DbStatPath.AllAscend(f, roots, 0))
  {
    SpotsOnce(f, roots, 0);
    PagesOnce(f, roots, 0);
    DbStatRows.ScanShows(f, roots, 0);
    if DbStatPath.IsStored(f) { DbStatPath.ScanAscends(f, roots, 0); }
  }

  /**
   Stepping a new cursor to its end gives the rows of all the trees, in order and no place twice: exactly the pages of
   the trees and, exactly if no page is used twice, each page once. Each row shows the page at its place. The rows are
   in the ascending order of their paths exactly if the cells are.
   */
  method Scan(f: File, roots: seq<nat>) returns (rows: seq<Row>)
    requires AreRoots(f, roots)
    ensures rows == TreeRows(f, roots, 0)
    ensures NoRepeat(Spots(rows)) && Set(Pgnos(rows)) == AllPages(f, roots, 0)
    ensures NoRepeat(Pgnos(rows)) <==> NothingShared(f, roots, 0)
    ensures DbStatRows.ShowTrees(f, roots, rows, 0)
    ensures DbStatPath.IsStored(f) ==> (DbStatPath.TreesAscend(rows) <==> DbStatPath.AllAscend(f, roots, 0))
  {
    var c := new StatCursor(f, roots, false);
    rows := [];
    ghost var todo := c.Pending();
    c.StatNext();
    while !c.isEof
      invariant c.Valid() && fresh(c) && fresh(c.aPage) && !c.isAgg
      invariant rows + todo == TreeRows(f, roots, 0)
      invariant if c.isEof then todo == [] else |todo| > 0 && c.Shows(todo[0]) && c.Pending() == todo[1..]
      decreases |todo|
    {
      var r := c.CurrentRow();
      Taken(rows, todo);
      rows, todo := rows + [r], todo[1..];
      c.StatNext();
    }
    ScanLaws(f, roots, rows);
  }

  lemma TotalIs(f: File, roots: seq<nat>, t: nat)
    requires AreRoots(f, roots) && t < |roots|
    ensures var total := Counted(Zero, Rows(f, t, roots[t], [], DEPTH));
            total.nPayload == RecordBytes(f, roots[t], DEPTH, 0)
            && DbStatRows.AddUp(Rows(f, t, roots[t], [], DEPTH), total)
  {
    DbStatRows.TotalsAddUp(Rows(f, t, roots[t], [], DEPTH));
    PayloadIsRecords(f, t, roots[t], [], DEPTH);
  }

  lemma AllTotals(f: File, roots: seq<nat>, totals: seq<Totals>)
    requires AreRoots(f, roots) && |totals| == |roots| && AreTotals(f, roots, totals)
    ensures forall t :: 0 <= t < |roots| ==> totals[t] == Counted(Zero, Rows(f, t, roots[t], [], DEPTH))
    ensures forall t :: 0 <= t < |roots| ==> totals[t].nPayload == RecordBytes(f, roots[t], DEPTH, 0)
    ensures forall t :: 0 <= t < |roots| ==> DbStatRows.AddUp(Rows(f, t, roots[t], [], DEPTH), totals[t])
  {
    forall t | 0 <= t < |roots|
      ensures totals[t].nPayload == RecordBytes(f, roots[t], DEPTH, 0)
      ensures DbStatRows.AddUp(Rows(f, t, roots[t], [], DEPTH), totals[t])
    {
      TotalIs(f, roots, t);
    }
  }

  /**
   In aggregate mode there is one row for each tree: the sum of its pages, with the size of all its records as payload.
   */
  method ScanTotals(f: File, roots: seq<nat>) returns (totals: seq<Totals>)
    requires AreRoots(f, roots)
    ensures |totals| == |roots|
    ensures forall t :: 0 <= t < |roots| ==> totals[t] == Counted(Zero, Rows(f, t, roots[t], [], DEPTH))
    ensures forall t :: 0 <= t < |roots| ==> totals[t].nPayload == RecordBytes(f, roots[t], DEPTH, 0)
    ensures forall t :: 0 <= t < |roots| ==> DbStatRows.AddUp(Rows(f, t, roots[t], [], DEPTH), totals[t])
  {
    totals := CountTrees(f, roots);
    AllTotals(f, roots, totals);
  }

  method CountTrees(f: File, roots: seq<nat>) returns (totals: seq<Totals>)
    requires AreRoots(f, roots)
    ensures |totals| == |roots| && AreTotals(f, roots, totals)
  {
    var c := new StatCursor(f, roots, true);
    totals := [];
    while c.iStmt < |roots|
      invariant c.Valid() && fresh(c) && fresh(c.aPage) && c.iPage == -1
      invariant |totals| == c.iStmt && AreTotals(f, roots, totals)
      decreases |roots| - c.iStmt
    {
      c.StatNextAggregate();
      var t := Totals(c.nPage, c.nCell, c.nPayload, c.nUnused, c.nMxPayload);
      NextTotal(f, roots, totals, t);
      totals := totals + [t];
    }
  }

  /** The totals of the first trees. */
  predicate AreTotals(f: File, roots: seq<nat>, totals: seq<Totals>)
    requires AreRoots(f, roots)
  {
    && |totals| <= |roots|
    && forall t :: 0 <= t < |totals| ==> totals[t] == Counted(Zero, Rows(f, t, roots[t], [], DEPTH))
  }

  lemma NextTotal(f: File, roots: seq<nat>, totals: seq<Totals>, total: Totals)
    requires AreRoots(f, roots) && AreTotals(f, roots, totals) && |totals| < |roots|
    requires var t := |totals|; total == Counted(Zero, Rows(f, t, roots[t], [], DEPTH))
    ensures AreTotals(f, roots, totals + [total])
  {
  }

  lemma Taken(rows: seq<Row>, todo: seq<Row>)
    requires |todo| > 0
    ensures rows + todo == (rows + [todo[0]]) + todo[1..]
  {
  }

  lemma Regrouped(todo: seq<Row>, a: seq<Row>, b: seq<Row>, mid: seq<Row>, c: seq<Row>)
    requires todo == a + mid && mid == b + c
    ensures todo == (a + b) + c
  {
  }

  lemma Replaced(a: seq<Row>, b: seq<Row>, c: seq<Row>)
    ensures (a + b) + c == a + (b + c)
  {
  }

  /** There are overflow pages of the current cell to walk. */
  predicate HasOverflow(p: StatPage) {
    p.iCell < |p.aCell| && p.aCell[p.iCell].iOvfl < p.aCell[p.iCell].nOvfl
  }

  /** The overflow chains of a leaf are all walked, or that of the current cell of an interior page. */
  predicate CellsOver(p: StatPage) {
    ChainOver(p) && (p.iRightChildPg == 0 ==> p.iCell >= |p.aCell|)
  }

  predicate ChainOver(p: StatPage) {
    p.iCell < |p.aCell| ==> p.aCell[p.iCell].iOvfl >= p.aCell[p.iCell].nOvfl
  }

  /** The same page at the same cell. */
  predicate SamePage(p: StatPage, q: StatPage) {
    q == p.(aCell := q.aCell) && |q.aCell| == |p.aCell|
  }}
