/**
 What the rows of a dbstat walk show: following a path from the root gives the page, and each page and each overflow
 page that can be reached so has its row.
 */
module DbStatRows {
  import opened Basics
  import opened DbStat
  import opened DbStatOnce

  /** The page below cell i, or below the right child, which counts as the cell after the last. */
  function ChildAt(f: File, pg: nat, i: nat): Option<nat> {
    if pg !in f.pages || f.pages[pg].OverflowPage? || f.pages[pg].kind in {TableLeaf, IndexLeaf} then None
    else if i < |f.pages[pg].cells| then Some(f.pages[pg].cells[i].iChildPg)
    else if i == |f.pages[pg].cells| then Some(f.pages[pg].iRightChildPg)
    else None
  }

  /** The page to which a path leads. */
  function PageAt(f: File, root: nat, path: seq<nat>): Option<nat> {
    if path == [] then Some(root) else
      match PageAt(f, root, path[..|path| - 1])
      case None => None
      case Some(pg) => ChildAt(f, pg, path[|path| - 1])
  }

  /** The size of the record in a cell, of which a cell of a table's interior page has none. */
  function SizeOf(p: RawPage, i: nat): nat
    requires p.BtreePage? && i < |p.cells|
  {
    if p.kind == TableInterior then 0 else p.cells[i].nPayload
  }

  /** The bytes of the record in a cell that are not on the page of the cell. */
  function Spilled(f: File, p: RawPage, i: nat): int
    requires IsFile(f) && p.BtreePage? && i < |p.cells|
  {
    SizeOf(p, i) - LocalPayload(f.nUsable, p.kind, SizeOf(p, i))
  }

  /** The bytes of records on a page, in the first n cells. */
  function StoredOn(f: File, p: RawPage, n: nat): int
    requires IsFile(f) && p.BtreePage? && n <= |p.cells|
  {
    if n == 0 then 0 else StoredOn(f, p, n - 1) + SizeOf(p, n - 1) - Spilled(f, p, n - 1)
  }

  /** The page j places after the first in an overflow chain. */
  function PageAfter(f: File, first: nat, j: nat): nat {
    if j == 0 then first else
      var pg := PageAfter(f, first, j - 1);
      if pg in f.pages && f.pages[pg].OverflowPage? then f.pages[pg].next else 0
  }

  ghost predicate IsLargest(p: RawPage, n: nat)
    requires p.BtreePage?
  {
    && (forall i :: 0 <= i < |p.cells| ==> SizeOf(p, i) <= n)
    && (n == 0 || exists i :: 0 <= i < |p.cells| && SizeOf(p, i) == n)
  }

  /** There is a page at this place: a b-tree page, or one of as many overflow pages as the rest of a record needs. */
  ghost predicate IsPlace(f: File, root: nat, place: Place)
    requires IsFile(f)
  {
    match PageAt(f, root, place.path)
    case None => false
    case Some(pg) =>
      && pg in f.pages && f.pages[pg].BtreePage?
      && match place
         case OnPage(_) => true
         case OnChain(_, i, j) => i < |f.pages[pg].cells| && j * (f.nUsable - 4) < Spilled(f, f.pages[pg], i)
  }

  /** The row shows the page at its place. */
  ghost predicate ShowsPage(f: File, root: nat, r: Row)
    requires IsFile(f) && IsPlace(f, root, r.place)
  {
    var pg := PageAt(f, root, r.place.path).value;
    var p := f.pages[pg];
    match r.place
    case OnPage(_) =>
      && r.pgno == pg && r.pagetype == (if p.kind in {TableLeaf, IndexLeaf} then Leaf else Internal)
      && r.nCell == |p.cells| && r.nUnused == p.nUnused
      && r.nPayload == StoredOn(f, p, |p.cells|) && IsLargest(p, r.nMxPayload)
    case OnChain(_, i, j) =>
      && r.pgno == PageAfter(f, p.cells[i].iOvfl, j) && r.pagetype == Overflow
      && r.nCell == 0 && r.nMxPayload == 0 && r.nPayload + r.nUnused == f.nUsable - 4
      && var left := Spilled(f, p, i) - j * (f.nUsable - 4);
      r.nPayload == if left > f.nUsable - 4 then f.nUsable - 4 else left
  }

  ghost predicate RowOk(f: File, root: nat, r: Row)
    requires IsFile(f)
  {
    IsPlace(f, root, r.place) && ShowsPage(f, root, r)
  }

  // ---- Each row is right ----

  lemma {:induction false} LargestOk(p: RawPage, n: nat)
    requires p.BtreePage? && n <= |p.cells|
    ensures var m := LargestRecord(p.kind, p.cells[..n]);
            && (forall i :: 0 <= i < n ==> SizeOf(p, i) <= m)
            && (m == 0 || exists i :: 0 <= i < n && SizeOf(p, i) == m)
  {
    if n > 0 {
      LargestOk(p, n - 1);
      assert p.cells[..n][..n - 1] == p.cells[..n - 1];
      assert SizeOf(p, n - 1) == Record(p.kind, p.cells[n - 1]);
    }
  }

  lemma {:induction false} StoredOk(f: File, pg: nat, n: nat)
    requires IsFile(f) && pg in f.pages && f.pages[pg].BtreePage? && n <= |f.pages[pg].cells|
    ensures LocalBytes(Cells(f, pg)[..n]) == StoredOn(f, f.pages[pg], n)
  {
    if n > 0 {
      StoredOk(f, pg, n - 1);
      assert Cells(f, pg)[..n][..n - 1] == Cells(f, pg)[..n - 1];
      assert Cells(f, pg)[n - 1] == DecodeCell(f, f.pages[pg].kind, f.pages[pg].cells[n - 1]);
    }
  }

  lemma PageRowOk(f: File, root: nat, tree: nat, pg: nat, path: seq<nat>)
    requires IsFile(f) && pg in f.pages && f.pages[pg].BtreePage? && PageAt(f, root, path) == Some(pg)
    ensures RowOk(f, root, PageRow(f, tree, pg, path))
  {
    var p := f.pages[pg];
    var n := |p.cells|;
    LargestOk(p, n);
    StoredOk(f, pg, n);
    assert p.cells[..n] == p.cells && Cells(f, pg)[..n] == Cells(f, pg);
  }

  lemma {:induction false} AfterNext(f: File, first: nat, j: nat)
    ensures PageAfter(f, Next(f, first), j) == PageAfter(f, first, j + 1)
  {
    if j > 0 { AfterNext(f, first, j - 1); }
  }

  lemma {:induction false} ChainAt(f: File, first: nat, n: nat, j: nat)
    requires j < n
    ensures Chain(f, first, n)[j] == PageAfter(f, first, j)
    decreases n
  {
    if j > 0 {
      ChainAt(f, Next(f, first), n - 1, j - 1);
      AfterNext(f, first, j - 1);
    }
  }

  /** How far a chain reaches: rest bytes need k pages of d bytes, the last of which is neither empty nor too small. */
  lemma Reaches(rest: int, d: nat, k: nat, j: nat)
    requires d > 0 && (if k == 0 then rest == 0 else 0 < rest - (k - 1) * d <= d)
    ensures j * d < rest <==> j < k
    ensures j < k ==> (rest - j * d > d <==> j < k - 1)
  {
    if j < k {
      if j < k - 1 {
        MulLe(j + 1, k - 1, d);
        assert (j + 1) * d == j * d + d;
      }
    } else if k > 0 {
      MulLe(k, j, d);
      assert k * d == (k - 1) * d + d;
    }
  }

  lemma ChainRowOk(f: File, root: nat, tree: nat, pg: nat, path: seq<nat>, i: nat, j: nat)
    requires IsFile(f) && pg in f.pages && f.pages[pg].BtreePage? && PageAt(f, root, path) == Some(pg)
    requires i < |f.pages[pg].cells| && j < Cells(f, pg)[i].nOvfl
    ensures RowOk(f, root, OverflowRow(f.nUsable, tree, path, i, Cells(f, pg)[i], j))
  {
    var p := f.pages[pg];
    var c := DecodeCell(f, p.kind, p.cells[i]);
    LocalPayloadOk(f.nUsable, p.kind, SizeOf(p, i));
    OverflowOk(Spilled(f, p, i), f.nUsable);
    Reaches(Spilled(f, p, i), f.nUsable - 4, c.nOvfl, j);
    ChainAt(f, p.cells[i].iOvfl, c.nOvfl, j);
  }

  lemma {:induction false} ChainRowsOk(f: File, root: nat, tree: nat, pg: nat, path: seq<nat>, i: nat, j: nat)
    requires IsFile(f) && pg in f.pages && f.pages[pg].BtreePage? && PageAt(f, root, path) == Some(pg)
    requires i < |f.pages[pg].cells|
    ensures forall r :: r in OverflowRows(f.nUsable, tree, path, i, Cells(f, pg)[i], j) ==> RowOk(f, root, r)
    decreases Cells(f, pg)[i].nOvfl - j
  {
    if j < Cells(f, pg)[i].nOvfl {
      ChainRowOk(f, root, tree, pg, path, i, j);
      ChainRowsOk(f, root, tree, pg, path, i, j + 1);
    }
  }

  /** The path to a child. */
  lemma PageBelow(f: File, root: nat, pg: nat, path: seq<nat>, i: nat)
    requires PageAt(f, root, path) == Some(pg)
    ensures PageAt(f, root, path + [i]) == ChildAt(f, pg, i)
  {
    assert (path + [i])[..|path|] == path;
  }

  lemma {:induction false} RowsFromOk(f: File, root: nat, tree: nat, pg: nat, path: seq<nat>, d: nat, i: nat)
    requires IsFile(f) && IsTree(f, pg, d) && PageAt(f, root, path) == Some(pg)
    ensures forall r :: r in RowsFrom(f, tree, pg, path, d, i) ==> RowOk(f, root, r)
    decreases d, |f.pages[pg].cells| + 1 - i
  {
    var p := f.pages[pg];
    PageBelow(f, root, pg, path, i);
    if i < |p.cells| {
      ChainRowsOk(f, root, tree, pg, path, i, 0);
      if !IsLeaf(p.kind) { RowsOk(f, root, tree, p.cells[i].iChildPg, path + [i], d - 1); }
      RowsFromOk(f, root, tree, pg, path, d, i + 1);
      RowsOfCell(f, tree, pg, path, d, i);
    } else if i == |p.cells| && !IsLeaf(p.kind) {
      RowsOk(f, root, tree, p.iRightChildPg, path + [i], d - 1);
    }
  }

  /** Every row shows the page at its place. */
  lemma {:induction false} RowsOk(f: File, root: nat, tree: nat, pg: nat, path: seq<nat>, d: nat)
    requires IsFile(f) && IsTree(f, pg, d) && PageAt(f, root, path) == Some(pg)
    ensures forall r :: r in Rows(f, tree, pg, path, d) ==> RowOk(f, root, r)
    decreases d, |f.pages[pg].cells| + 2
  {
    PageRowOk(f, root, tree, pg, path);
    RowsFromOk(f, root, tree, pg, path, d, 0);
  }

  // ---- Each page has its row ----

  lemma {:induction false} ChainHas(nUsable: nat, tree: nat, path: seq<nat>, i: nat, c: StatCell, j: nat, k: nat)
    requires nUsable > 4 && c.nOvfl == |c.aOvfl| && j <= k < c.nOvfl
    ensures OverflowRow(nUsable, tree, path, i, c, k) in OverflowRows(nUsable, tree, path, i, c, j)
    decreases k - j
  {
    if j < k { ChainHas(nUsable, tree, path, i, c, j + 1, k); }
  }

  /** The rows of cell i, or of the right child, are among those from an earlier cell on. */
  lemma {:induction false} LaterRows(f: File, tree: nat, pg: nat, path: seq<nat>, d: nat, i: nat, k: nat, r: Row)
    requires IsFile(f) && IsTree(f, pg, d) && i <= k && r in RowsFrom(f, tree, pg, path, d, k)
    ensures r in RowsFrom(f, tree, pg, path, d, i)
    decreases k - i
  {
    if i < k {
      LaterRows(f, tree, pg, path, d, i + 1, k, r);
      if i < |f.pages[pg].cells| { RowsOfCell(f, tree, pg, path, d, i); }
    }
  }

  /** The rows of a child are among those of its parent. */
  lemma RowsOfChild(f: File, tree: nat, pg: nat, path: seq<nat>, d: nat, i: nat, r: Row)
    requires IsFile(f) && IsTree(f, pg, d) && ChildAt(f, pg, i).Some? && IsTree(f, ChildAt(f, pg, i).value, d - 1)
    requires r in Rows(f, tree, ChildAt(f, pg, i).value, path + [i], d - 1)
    ensures r in Rows(f, tree, pg, path, d)
  {
    if i < |f.pages[pg].cells| {
      RowsOfCell(f, tree, pg, path, d, i);
      assert r in ChildRows(f, tree, pg, path, d, i);
    }
    assert r in RowsFrom(f, tree, pg, path, d, i);
    LaterRows(f, tree, pg, path, d, 0, i, r);
  }

  /** A path that leads somewhere leads to a smaller tree, the rows of which are among those of the tree. */
  lemma {:induction false} Subtree(f: File, root: nat, tree: nat, d: nat, path: seq<nat>, r: Row) returns (e: nat)
    requires IsFile(f) && IsTree(f, root, d) && PageAt(f, root, path).Some?
    ensures var pg := PageAt(f, root, path).value;
            IsTree(f, pg, e) && (r in Rows(f, tree, pg, path, e) ==> r in Rows(f, tree, root, [], d))
    decreases |path|, 1
  {
    e := d;
    if path != [] {
      var n := |path| - 1;
      e := Above(f, root, tree, d, path, r);
      var pg := PageAt(f, root, path[..n]).value;
      assert path == path[..n] + [path[n]];
      if r in Rows(f, tree, PageAt(f, root, path).value, path, e - 1) {
        RowsOfChild(f, tree, pg, path[..n], e, path[n], r);
      }
      e := e - 1;
    }
  }

  /** The tree above the end of a path. */
  lemma {:induction false} Above(f: File, root: nat, tree: nat, d: nat, path: seq<nat>, r: Row) returns (e: nat)
    requires IsFile(f) && IsTree(f, root, d) && path != [] && PageAt(f, root, path).Some?
    ensures var pg := PageAt(f, root, path[..|path| - 1]);
            && pg.Some? && IsTree(f, pg.value, e) && e > 0 && IsTree(f, PageAt(f, root, path).value, e - 1)
            && (r in Rows(f, tree, pg.value, path[..|path| - 1], e) ==> r in Rows(f, tree, root, [], d))
    decreases |path|, 0
  {
    e := Subtree(f, root, tree, d, path[..|path| - 1], r);
  }

  lemma ChainRowIn(f: File, tree: nat, pg: nat, path: seq<nat>, d: nat, i: nat, j: nat)
    requires IsFile(f) && IsTree(f, pg, d) && i < |f.pages[pg].cells|
    requires j * (f.nUsable - 4) < Spilled(f, f.pages[pg], i)
    ensures j < Cells(f, pg)[i].nOvfl
    ensures OverflowRow(f.nUsable, tree, path, i, Cells(f, pg)[i], j) in Rows(f, tree, pg, path, d)
  {
    var p := f.pages[pg];
    var c := DecodeCell(f, p.kind, p.cells[i]);
    LocalPayloadOk(f.nUsable, p.kind, SizeOf(p, i));
    OverflowOk(Spilled(f, p, i), f.nUsable);
    Reaches(Spilled(f, p, i), f.nUsable - 4, c.nOvfl, j);
    ChainHas(f.nUsable, tree, path, i, c, 0, j);
    RowsOfCell(f, tree, pg, path, d, i);
    LaterRows(f, tree, pg, path, d, 0, i, OverflowRow(f.nUsable, tree, path, i, c, j));
  }

  /** Every page that can be reached has its row. */
  lemma HasRow(f: File, root: nat, tree: nat, d: nat, place: Place) returns (r: Row)
    requires IsFile(f) && IsTree(f, root, d) && IsPlace(f, root, place)
    ensures r in Rows(f, tree, root, [], d) && r.place == place
  {
    var pg := PageAt(f, root, place.path).value;
    match place
    case OnPage(path) =>
      r := PageRow(f, tree, pg, path);
      var e := Subtree(f, root, tree, d, path, r);
    case OnChain(path, i, j) =>
      var c := Cells(f, pg)[i];
      LocalPayloadOk(f.nUsable, f.pages[pg].kind, SizeOf(f.pages[pg], i));
      OverflowOk(Spilled(f, f.pages[pg], i), f.nUsable);
      Reaches(Spilled(f, f.pages[pg], i), f.nUsable - 4, c.nOvfl, j);
      r := OverflowRow(f.nUsable, tree, path, i, c, j);
      var e := Subtree(f, root, tree, d, path, r);
      ChainRowIn(f, tree, pg, path, e, i, j);
  }

  /** The rows of a tree are at the places that can be reached, and at no other, and show the pages there. */
  lemma RowsShow(f: File, root: nat, tree: nat, d: nat)
    requires IsFile(f) && IsTree(f, root, d)
    ensures forall r :: r in Rows(f, tree, root, [], d) ==> RowOk(f, root, r)
    ensures forall place :: IsPlace(f, root, place) ==> exists r :: r in Rows(f, tree, root, [], d) && r.place == place
  {
    RowsOk(f, root, tree, root, [], d);
    forall place | IsPlace(f, root, place)
      ensures exists r :: r in Rows(f, tree, root, [], d) && r.place == place
    {
      var r := HasRow(f, root, tree, d, place);
    }
  }

  // ---- All the trees ----

  /** The rows of the trees from the t-th on show what is in those trees, and nothing else. */
  ghost predicate ShowTrees(f: File, roots: seq<nat>, rows: seq<Row>, t: nat)
    requires AreRoots(f, roots)
  {
    && (forall r :: r in rows ==> t <= r.tree < |roots| && RowOk(f, roots[r.tree], r))
    && forall k, place {:trigger IsPlace(f, roots[k], place)} :: t <= k < |roots| && IsPlace(f, roots[k], place) ==>
        exists r :: r in rows && r.tree == k && r.place == place
  }

  lemma OneMoreTree(f: File, roots: seq<nat>, a: seq<Row>, b: seq<Row>, t: nat)
    requires AreRoots(f, roots) && t < |roots| && ShowTrees(f, roots, b, t + 1)
    requires forall r :: r in a ==> r.tree == t && RowOk(f, roots[t], r)
    requires forall place :: IsPlace(f, roots[t], place) ==> exists r :: r in a && r.place == place
    ensures ShowTrees(f, roots, a + b, t)
  {
    forall k, place {:trigger IsPlace(f, roots[k], place)} | t <= k < |roots| && IsPlace(f, roots[k], place)
      ensures exists r :: r in a + b && r.tree == k && r.place == place
    {
      if k == t {
        var r :| r in a && r.place == place;
        assert r in a + b;
      } else {
        var r :| r in b && r.tree == k && r.place == place;
        assert r in a + b;
      }
    }
  }

  lemma {:induction false} ScanShows(f: File, roots: seq<nat>, t: nat)
    requires AreRoots(f, roots)
    ensures ShowTrees(f, roots, TreeRows(f, roots, t), t)
    decreases |roots| - t
  {
    if t < |roots| {
      RowsShow(f, roots[t], t, DEPTH);
      OneTree(f, t, roots[t], [], DEPTH);
      ScanShows(f, roots, t + 1);
      OneMoreTree(f, roots, Rows(f, t, roots[t], [], DEPTH), TreeRows(f, roots, t + 1), t);
    }
  }

  // ---- Totals ----

  function Sum(rows: seq<Row>, field: Row -> int): int {
    if rows == [] then 0 else field(rows[0]) + Sum(rows[1..], field)
  }

  /** Pages, cells, unused bytes and payload are added up; of the largest records it is the largest. */
  ghost predicate AddUp(rows: seq<Row>, t: Totals) {
    && t.nPage == |rows|
    && t.nCell == Sum(rows, (r: Row) => r.nCell)
    && t.nUnused == Sum(rows, (r: Row) => r.nUnused)
    && t.nPayload == Sum(rows, (r: Row) => r.nPayload)
    && (forall r :: r in rows ==> r.nMxPayload <= t.nMxPayload)
    && (t.nMxPayload == 0 || exists r :: r in rows && r.nMxPayload == t.nMxPayload)
  }

  lemma {:induction false} SumSnoc(rows: seq<Row>, r: Row, field: Row -> int)
    ensures Sum(rows + [r], field) == Sum(rows, field) + field(r)
  {
    if rows == [] {
      assert ([] + [r])[1..] == [];
    } else {
      SumSnoc(rows[1..], r, field);
      assert (rows + [r])[1..] == rows[1..] + [r];
    }
  }

  lemma OneMoreRow(rows: seq<Row>, t: Totals, r: Row)
    requires AddUp(rows, t)
    ensures AddUp(rows + [r], Count(t, r))
  {
    SumSnoc(rows, r, (r: Row) => r.nCell);
    SumSnoc(rows, r, (r: Row) => r.nUnused);
    SumSnoc(rows, r, (r: Row) => r.nPayload);
    assert r in rows + [r];
    assert forall s :: s in rows ==> s in rows + [r];
  }

  lemma {:induction false} TotalsAddUp(rows: seq<Row>)
    ensures AddUp(rows, Counted(Zero, rows))
  {
    if rows != [] {
      var n := |rows| - 1;
      TotalsAddUp(rows[..n]);
      OneMoreRow(rows[..n], Counted(Zero, rows[..n]), rows[n]);
      assert rows[..n] + [rows[n]] == rows;
    }
  }
}
