/** The dbstat walk over b-trees: what a page holds, the rows in their order, and what they add up to. */
module DbStat {
  import opened Basics
  import opened Division

  // ---- Pages ----

  datatype Kind = TableInterior | TableLeaf | IndexInterior | IndexLeaf

  predicate IsLeaf(k: Kind) {
    k == TableLeaf || k == IndexLeaf
  }

  /** A cell as it is on the page: the size of its record, its child, and the first page of its overflow chain. */
  datatype RawCell = RawCell(nPayload: nat, iChildPg: nat, iOvfl: nat)

  /** A page of the file. */
  datatype RawPage = BtreePage(kind: Kind, cells: seq<RawCell>, iRightChildPg: nat, nUnused: int)
                   | OverflowPage(next: nat)

  /** The pages of a file, and the usable bytes of each. */
  datatype File = File(pages: map<nat, RawPage>, nUsable: nat)

  predicate IsFile(f: File) {
    480 <= f.nUsable <= 65536
  }

  // ---- Cells ----

  function MinLocal(nUsable: nat): int
    requires nUsable >= 12
  {
    (nUsable - 12) * 32 / 255 - 23
  }

  function MaxLocal(nUsable: nat, kind: Kind): int
    requires nUsable >= 12
  {
    if kind == TableLeaf then nUsable - 35 else (nUsable - 12) * 64 / 255 - 23
  }

  /** The bytes of a record that are stored on its own page. */
  function LocalPayload(nUsable: nat, kind: Kind, nTotal: nat): int
    requires nUsable >= 480
  {
    var nLocal := MinLocal(nUsable) + CMod(nTotal - MinLocal(nUsable), nUsable - 4);
    if nLocal > MaxLocal(nUsable, kind) then MinLocal(nUsable) else nLocal
  }

  lemma ModAtMost(a: nat, b: nat)
    requires b > 0
    ensures 0 <= a % b <= a && (a < b ==> a % b == a)
  {
    if a >= b { assert a % b < b; }
  }

  /** A record that fits is stored whole; otherwise a part of it is, and never more than a page takes. */
  lemma LocalPayloadOk(nUsable: nat, kind: Kind, nTotal: nat)
    requires 480 <= nUsable
    ensures 0 <= LocalPayload(nUsable, kind, nTotal) <= nTotal
    ensures LocalPayload(nUsable, kind, nTotal) <= nUsable - 35
    ensures nTotal <= MaxLocal(nUsable, kind) ==> LocalPayload(nUsable, kind, nTotal) == nTotal
    ensures nTotal > MaxLocal(nUsable, kind) ==> MinLocal(nUsable) <= LocalPayload(nUsable, kind, nTotal) < nTotal
  {
    var m := MinLocal(nUsable);
    assert 0 <= m <= MaxLocal(nUsable, kind) <= nUsable - 35 && m < nUsable - 4;
    if nTotal >= m { ModAtMost(nTotal - m, nUsable - 4); } else { ModAtMost(m - nTotal, nUsable - 4); }
  }

  /**
   What the file format allows on a page: all of a record up to nUsable-35 bytes on a table leaf, else about a quarter.
   */
  lemma StoredWhole(nUsable: nat, kind: Kind, n: nat)
    requires 480 <= nUsable
    requires n <= if kind == TableLeaf then nUsable - 35 else (nUsable - 12) * 64 / 255 - 23
    ensures LocalPayload(nUsable, kind, n) == n
  {
    LocalPayloadOk(nUsable, kind, n);
  }

  /**
   Of a larger record at least (nUsable-12)*32/255-23 bytes are stored, and no more than that limit; if that can be done
   so that the rest fills its overflow pages of nUsable-4 bytes, it is, and otherwise the least is stored.
   */
  lemma StoredInPart(nUsable: nat, kind: Kind, n: nat, x: nat)
    requires 480 <= nUsable
    requires n > if kind == TableLeaf then nUsable - 35 else (nUsable - 12) * 64 / 255 - 23
    ensures var least, most := (nUsable - 12) * 32 / 255 - 23,
                               if kind == TableLeaf then nUsable - 35 else (nUsable - 12) * 64 / 255 - 23;
            var nLocal := LocalPayload(nUsable, kind, n);
            && least <= nLocal <= most
            && (nLocal == least || (n - nLocal) % (nUsable - 4) == 0)
            && (least <= x <= most && (n - x) % (nUsable - 4) == 0 ==> nLocal == x)
  {
    var least, most := MinLocal(nUsable), MaxLocal(nUsable, kind);
    LocalPayloadOk(nUsable, kind, n);
    PartIs(least, most, nUsable - 4, n, x, LocalPayload(nUsable, kind, n));
  }

  lemma PartIs(least: nat, most: nat, d: nat, n: nat, x: nat, nLocal: nat)
    requires least <= most < least + d && n > most
    requires var y := least + (n - least) % d; nLocal == if y > most then least else y
    ensures nLocal == least || (n - nLocal) % d == 0
    ensures least <= x <= most && (n - x) % d == 0 ==> nLocal == x
  {
    var a := n - least;
    Aligned(a, d, a / d, a % d);
    if least <= x <= most && (n - x) % d == 0 { OneRest(a, n - x, d); }
  }

  lemma Aligned(a: nat, d: nat, k: nat, r: nat)
    requires d > 0 && r < d && k == a / d && r == a % d
    ensures (a - r) % d == 0
  {
    assert a - r == k * d;
    DivModUnique(a - r, d, k, 0);
  }

  /** What is left of a when multiples of d are taken off is determined by the multiple. */
  lemma OneRest(a: nat, b: nat, d: nat)
    requires b <= a < b + d && d > 0 && b % d == 0
    ensures a % d == a - b
  {
    assert a == b / d * d + (a - b);
    DivModUnique(a, d, b / d, a - b);
  }

  datatype StatCell = StatCell(nLocal: nat, iChildPg: nat, nOvfl: nat, aOvfl: seq<nat>, nLastOvfl: nat, iOvfl: nat)

  function Next(f: File, pg: nat): nat {
    if pg in f.pages && f.pages[pg].OverflowPage? then f.pages[pg].next else 0
  }

  /** The n pages of an overflow chain. */
  function Chain(f: File, first: nat, n: nat): (c: seq<nat>)
    ensures |c| == n
    decreases n
  {
    if n == 0 then [] else [first] + Chain(f, Next(f, first), n - 1)
  }

  function OverflowPages(n: nat, nUsable: nat): nat
    requires nUsable > 4
  {
    (n + nUsable - 4 - 1) / (nUsable - 4)
  }

  /** A cell of a table's interior page has no record. */
  function Record(kind: Kind, c: RawCell): nat {
    if kind == TableInterior then 0 else c.nPayload
  }

  function Child(kind: Kind, c: RawCell): nat {
    if IsLeaf(kind) then 0 else c.iChildPg
  }

  function DecodeCell(f: File, kind: Kind, c: RawCell): StatCell
    requires IsFile(f)
  {
    var n := Record(kind, c);
    LocalPayloadOk(f.nUsable, kind, n);
    var nLocal := LocalPayload(f.nUsable, kind, n);
    var nOvfl := OverflowPages(n - nLocal, f.nUsable);
    OverflowOk(n - nLocal, f.nUsable);
    StatCell(nLocal, Child(kind, c), nOvfl, Chain(f, c.iOvfl, nOvfl),
             if nOvfl == 0 then 0 else n - nLocal - (nOvfl - 1) * (f.nUsable - 4), 0)
  }

  lemma MulLe(a: nat, b: nat, d: nat)
    requires a <= b
    ensures a * d <= b * d
  {
    assert b * d == a * d + (b - a) * d;
  }

  /** The chain is as long as the bytes need: its last page is not empty and holds no more than a page takes. */
  lemma OverflowOk(n: nat, nUsable: nat)
    requires nUsable > 4
    ensures var k, d := OverflowPages(n, nUsable), nUsable - 4;
            (n == 0 <==> k == 0) && (k > 0 ==> 0 < n - (k - 1) * d <= d)
  {
    var d := nUsable - 4;
    var k := OverflowPages(n, nUsable);
    var r := (n + d - 1) % d;
    assert n + d - 1 == k * d + r;
    if k > 0 {
      assert (k - 1) * d == k * d - d;
    } else {
      assert k * d == 0;
    }
    if n == 0 && k > 0 { MulLe(1, k, d); }
  }

  // ---- Trees and their rows ----

  function Cells(f: File, pg: nat): (cells: seq<StatCell>)
    requires IsFile(f) && pg in f.pages && f.pages[pg].BtreePage?
    ensures |cells| == |f.pages[pg].cells|
  {
    var p := f.pages[pg];
    seq(|p.cells|, i requires 0 <= i < |p.cells| => DecodeCell(f, p.kind, p.cells[i]))
  }

  /** A b-tree of at most d levels with its root on page pg. */
  predicate IsTree(f: File, pg: nat, d: nat)
    decreases d
  {
    && d > 0 && pg in f.pages && f.pages[pg].BtreePage?
    && var p := f.pages[pg];
    && (IsLeaf(p.kind) <==> p.iRightChildPg == 0)
    && (!IsLeaf(p.kind) ==>
          && IsTree(f, p.iRightChildPg, d - 1)
          && forall i :: 0 <= i < |p.cells| ==> IsTree(f, p.cells[i].iChildPg, d - 1))
  }

  /** The way to a page: the child taken on each page, from the root; and the place in an overflow chain. */
  datatype Place = OnPage(path: seq<nat>) | OnChain(path: seq<nat>, cell: nat, iOvfl: nat)

  datatype PageType = Internal | Leaf | Overflow

  datatype Row = Row(tree: nat, pgno: nat, place: Place, pagetype: PageType,
                     nCell: nat, nPayload: nat, nUnused: int, nMxPayload: nat)

  function LocalBytes(cells: seq<StatCell>): nat {
    if cells == [] then 0 else LocalBytes(cells[..|cells| - 1]) + cells[|cells| - 1].nLocal
  }

  function Max(a: nat, b: nat): nat {
    if a < b then b else a
  }

  /** The largest of the first n records of a page. */
  function LargestRecord(kind: Kind, cells: seq<RawCell>): nat {
    if cells == [] then 0 else Max(LargestRecord(kind, cells[..|cells| - 1]), Record(kind, cells[|cells| - 1]))
  }

  function PageRow(f: File, tree: nat, pg: nat, path: seq<nat>): Row
    requires IsFile(f) && pg in f.pages && f.pages[pg].BtreePage?
  {
    var p := f.pages[pg];
    Row(tree, pg, OnPage(path), if IsLeaf(p.kind) then Leaf else Internal,
        |p.cells|, LocalBytes(Cells(f, pg)), p.nUnused, LargestRecord(p.kind, p.cells))
  }

  function OverflowRow(nUsable: nat, tree: nat, path: seq<nat>, i: nat, c: StatCell, j: nat): Row
    requires nUsable > 4 && j < c.nOvfl == |c.aOvfl|
  {
    var nPayload := if j < c.nOvfl - 1 then nUsable - 4 else c.nLastOvfl;
    Row(tree, c.aOvfl[j], OnChain(path, i, j), Overflow, 0, nPayload, nUsable - 4 - nPayload, 0)
  }

  /** The rows of the overflow pages of a cell, from the j-th on. */
  function OverflowRows(nUsable: nat, tree: nat, path: seq<nat>, i: nat, c: StatCell, j: nat): seq<Row>
    requires nUsable > 4 && c.nOvfl == |c.aOvfl|
    decreases c.nOvfl - j
  {
    if j >= c.nOvfl then []
    else [OverflowRow(nUsable, tree, path, i, c, j)] + OverflowRows(nUsable, tree, path, i, c, j + 1)
  }

  /** The rows of a tree: its root, and then what is below. */
  function Rows(f: File, tree: nat, pg: nat, path: seq<nat>, d: nat): seq<Row>
    requires IsFile(f) && IsTree(f, pg, d)
    decreases d, |f.pages[pg].cells| + 2
  {
    [PageRow(f, tree, pg, path)] + RowsFrom(f, tree, pg, path, d, 0)
  }

  /**
   The rows below a page from cell i on: for each cell its overflow chain and then its child; last the right child.
   */
  function RowsFrom(f: File, tree: nat, pg: nat, path: seq<nat>, d: nat, i: nat): seq<Row>
    requires IsFile(f) && IsTree(f, pg, d)
    decreases d, |f.pages[pg].cells| + 1 - i
  {
    var p := f.pages[pg];
    if i < |p.cells| then
      OverflowRows(f.nUsable, tree, path, i, Cells(f, pg)[i], 0) + RowsAfter(f, tree, pg, path, d, i)
    else if i == |p.cells| && !IsLeaf(p.kind) then Rows(f, tree, p.iRightChildPg, path + [i], d - 1)
    else []
  }

  /** The rows after the overflow chain of cell i. */
  function RowsAfter(f: File, tree: nat, pg: nat, path: seq<nat>, d: nat, i: nat): seq<Row>
    requires IsFile(f) && IsTree(f, pg, d) && i < |f.pages[pg].cells|
    decreases d, |f.pages[pg].cells| + 1 - i, 0
  {
    var p := f.pages[pg];
    (if IsLeaf(p.kind) then [] else Rows(f, tree, p.cells[i].iChildPg, path + [i], d - 1))
    + RowsFrom(f, tree, pg, path, d, i + 1)
  }

  /** The deepest stack. */
  const DEPTH := 32

  predicate AreRoots(f: File, roots: seq<nat>) {
    IsFile(f) && forall t {:trigger roots[t]} :: 0 <= t < |roots| ==> IsTree(f, roots[t], DEPTH)
  }

  /** The rows of the trees from the t-th on. */
  function TreeRows(f: File, roots: seq<nat>, t: nat): seq<Row>
    requires AreRoots(f, roots)
    decreases |roots| - t
  {
    if t >= |roots| then [] else Rows(f, t, roots[t], [], DEPTH) + TreeRows(f, roots, t + 1)
  }

  // ---- Totals ----

  datatype Totals = Totals(nPage: nat, nCell: nat, nPayload: nat, nUnused: int, nMxPayload: nat)

  const Zero := Totals(0, 0, 0, 0, 0)

  /** The totals with one more row. */
  function Count(t: Totals, r: Row): Totals {
    Totals(t.nPage + 1, t.nCell + r.nCell, t.nPayload + r.nPayload, t.nUnused + r.nUnused,
           Max(t.nMxPayload, r.nMxPayload))
  }

  /** The totals with some more rows. */
  function Counted(t: Totals, rows: seq<Row>): Totals {
    if rows == [] then t else Count(Counted(t, rows[..|rows| - 1]), rows[|rows| - 1])
  }

  lemma CountedSnoc(t: Totals, rows: seq<Row>, r: Row)
    ensures Counted(t, rows + [r]) == Count(Counted(t, rows), r)
  {
    assert (rows + [r])[..|rows|] == rows;
  }

  lemma {:induction false} CountedConcat(t: Totals, a: seq<Row>, b: seq<Row>)
    ensures Counted(t, a + b) == Counted(Counted(t, a), b)
  {
    if b == [] {
      assert a + b == a;
    } else {
      var n := |b| - 1;
      CountedConcat(t, a, b[..n]);
      Snoc(a, b, n);
      CountedSnoc(t, a + b[..n], b[n]);
    }
  }

  lemma Snoc(a: seq<Row>, b: seq<Row>, n: nat)
    requires |b| == n + 1
    ensures a + b == (a + b[..n]) + [b[n]]
  {
  }

  /** The bytes of payload of some rows. */
  function Payload(rows: seq<Row>): nat {
    if rows == [] then 0 else rows[0].nPayload + Payload(rows[1..])
  }

  lemma {:induction false} PayloadConcat(a: seq<Row>, b: seq<Row>)
    ensures Payload(a + b) == Payload(a) + Payload(b)
  {
    if a == [] {
      assert a + b == b;
    } else {
      PayloadConcat(a[1..], b);
      assert (a + b)[1..] == a[1..] + b;
    }
  }

  lemma {:induction false} CountedPayload(t: Totals, rows: seq<Row>)
    ensures Counted(t, rows).nPayload == t.nPayload + Payload(rows) && Counted(t, rows).nPage == t.nPage + |rows|
  {
    if rows != [] {
      var n := |rows| - 1;
      CountedPayload(t, rows[..n]);
      PayloadConcat(rows[..n], [rows[n]]);
      assert rows == rows[..n] + [rows[n]];
      assert [rows[n]][1..] == [];
    }
  }

  /** The sizes of the records in the cells of a tree, from cell i of its root on. */
  function RecordBytes(f: File, pg: nat, d: nat, i: nat): nat
    requires IsFile(f) && IsTree(f, pg, d)
    decreases d, |f.pages[pg].cells| + 1 - i
  {
    var p := f.pages[pg];
    if i < |p.cells| then
      Record(p.kind, p.cells[i])
      + (if IsLeaf(p.kind) then 0 else RecordBytes(f, p.cells[i].iChildPg, d - 1, 0))
      + RecordBytes(f, pg, d, i + 1)
    else if i == |p.cells| && !IsLeaf(p.kind) then RecordBytes(f, p.iRightChildPg, d - 1, 0)
    else 0
  }

  lemma {:induction false} ChainBytes(nUsable: nat, tree: nat, path: seq<nat>, i: nat, c: StatCell, j: nat)
    requires nUsable > 4 && c.nOvfl == |c.aOvfl| && j <= c.nOvfl
    ensures Payload(OverflowRows(nUsable, tree, path, i, c, j))
         == if j == c.nOvfl then 0 else (c.nOvfl - 1 - j) * (nUsable - 4) + c.nLastOvfl
    decreases c.nOvfl - j
  {
    if j < c.nOvfl {
      ChainBytes(nUsable, tree, path, i, c, j + 1);
      var row, rest := OverflowRow(nUsable, tree, path, i, c, j), OverflowRows(nUsable, tree, path, i, c, j + 1);
      PayloadConcat([row], rest);
      assert Payload([row]) == row.nPayload;
      if j + 1 < c.nOvfl {
        assert (c.nOvfl - 1 - j) * (nUsable - 4) == (c.nOvfl - 2 - j) * (nUsable - 4) + (nUsable - 4);
      }
    }
  }

  /** A record is what is stored on the page and what is stored on its overflow pages. */
  lemma CellBytes(f: File, kind: Kind, c: RawCell, tree: nat, path: seq<nat>, i: nat)
    requires IsFile(f)
    ensures var s := DecodeCell(f, kind, c);
            s.nLocal + Payload(OverflowRows(f.nUsable, tree, path, i, s, 0)) == Record(kind, c)
  {
    var n := Record(kind, c);
    LocalPayloadOk(f.nUsable, kind, n);
    OverflowOk(n - LocalPayload(f.nUsable, kind, n), f.nUsable);
    ChainBytes(f.nUsable, tree, path, i, DecodeCell(f, kind, c), 0);
  }

  function LocalFrom(cells: seq<StatCell>, i: nat): nat
    decreases |cells| - i
  {
    if i >= |cells| then 0 else cells[i].nLocal + LocalFrom(cells, i + 1)
  }

  lemma {:induction false} LocalSplit(cells: seq<StatCell>, i: nat)
    requires i <= |cells|
    ensures LocalBytes(cells[..i]) + LocalFrom(cells, i) == LocalBytes(cells)
    decreases |cells| - i
  {
    if i < |cells| {
      LocalSplit(cells, i + 1);
      assert cells[..i + 1][..i] == cells[..i];
    } else {
      assert cells[..i] == cells;
    }
  }

  /** The payload of a cell: what is local, the overflow chain, the child, and what comes after. */
  lemma PayloadOfCell(f: File, kind: Kind, raw: RawCell, tree: nat, path: seq<nat>, i: nat, child: seq<Row>,
                      rest: seq<Row>)
    requires IsFile(f)
    ensures var c := DecodeCell(f, kind, raw);
            c.nLocal + Payload(OverflowRows(f.nUsable, tree, path, i, c, 0) + (child + rest))
            == Record(kind, raw) + Payload(child) + Payload(rest)
  {
    CellBytes(f, kind, raw, tree, path, i);
    PayloadConcat(OverflowRows(f.nUsable, tree, path, i, DecodeCell(f, kind, raw), 0), child + rest);
    PayloadConcat(child, rest);
  }

  /** The rows of the child of cell i. */
  function ChildRows(f: File, tree: nat, pg: nat, path: seq<nat>, d: nat, i: nat): seq<Row>
    requires IsFile(f) && IsTree(f, pg, d) && i < |f.pages[pg].cells|
  {
    if IsLeaf(f.pages[pg].kind) then [] else Rows(f, tree, f.pages[pg].cells[i].iChildPg, path + [i], d - 1)
  }

  lemma RowsOfCell(f: File, tree: nat, pg: nat, path: seq<nat>, d: nat, i: nat)
    requires IsFile(f) && IsTree(f, pg, d) && i < |f.pages[pg].cells|
    ensures RowsFrom(f, tree, pg, path, d, i)
         == OverflowRows(f.nUsable, tree, path, i, Cells(f, pg)[i], 0)
            + (ChildRows(f, tree, pg, path, d, i) + RowsFrom(f, tree, pg, path, d, i + 1))
  {
  }

  function ChildBytes(f: File, pg: nat, d: nat, i: nat): nat
    requires IsFile(f) && IsTree(f, pg, d) && i < |f.pages[pg].cells|
  {
    if IsLeaf(f.pages[pg].kind) then 0 else RecordBytes(f, f.pages[pg].cells[i].iChildPg, d - 1, 0)
  }

  lemma {:induction false} ChildPayload(f: File, tree: nat, pg: nat, path: seq<nat>, d: nat, i: nat)
    requires IsFile(f) && IsTree(f, pg, d) && i < |f.pages[pg].cells|
    ensures Payload(ChildRows(f, tree, pg, path, d, i)) == ChildBytes(f, pg, d, i)
    decreases d, 0
  {
    var p := f.pages[pg];
    if !IsLeaf(p.kind) { PayloadIsRecords(f, tree, p.cells[i].iChildPg, path + [i], d - 1); }
  }

  /** The payload of the rows below a page, with what is local to it, is the size of the records. */
  lemma {:induction false} PayloadFrom(f: File, tree: nat, pg: nat, path: seq<nat>, d: nat, i: nat)
    requires IsFile(f) && IsTree(f, pg, d)
    ensures Payload(RowsFrom(f, tree, pg, path, d, i)) + LocalFrom(Cells(f, pg), i) == RecordBytes(f, pg, d, i)
    decreases d, |f.pages[pg].cells| + 1 - i
  {
    var p := f.pages[pg];
    if i < |p.cells| {
      PayloadFrom(f, tree, pg, path, d, i + 1);
      ChildPayload(f, tree, pg, path, d, i);
      RowsOfCell(f, tree, pg, path, d, i);
      PayloadOfCell(f, p.kind, p.cells[i], tree, path, i, ChildRows(f, tree, pg, path, d, i),
                    RowsFrom(f, tree, pg, path, d, i + 1));
    } else if i == |p.cells| && !IsLeaf(p.kind) {
      PayloadIsRecords(f, tree, p.iRightChildPg, path + [i], d - 1);
    }
  }

  /** The payload of all the rows of a tree is the size of all its records. */
  lemma {:induction false} PayloadIsRecords(f: File, tree: nat, pg: nat, path: seq<nat>, d: nat)
    requires IsFile(f) && IsTree(f, pg, d)
    ensures Counted(Zero, Rows(f, tree, pg, path, d)).nPayload == RecordBytes(f, pg, d, 0)
    ensures Payload(Rows(f, tree, pg, path, d)) == RecordBytes(f, pg, d, 0)
    decreases d, |f.pages[pg].cells| + 2
  {
    PayloadFrom(f, tree, pg, path, d, 0);
    PayloadConcat([PageRow(f, tree, pg, path)], RowsFrom(f, tree, pg, path, d, 0));
    assert Payload([PageRow(f, tree, pg, path)]) == LocalBytes(Cells(f, pg));
    LocalSplit(Cells(f, pg), 0);
    CountedPayload(Zero, Rows(f, tree, pg, path, d));
  }
}
