/**
 The rows of a dbstat walk: no place comes twice, they are the pages of the trees, and no page comes twice unless it is
 shared.
 */
module DbStatOnce {
  import opened DbStat

  predicate NoRepeat<T(==)>(s: seq<T>) {
    forall i, j :: 0 <= i < j < |s| ==> s[i] != s[j]
  }

  function Set<T>(s: seq<T>): set<T> {
    set x | x in s
  }

  lemma ConcatNoRepeat<T>(a: seq<T>, b: seq<T>)
    ensures NoRepeat(a + b) <==> NoRepeat(a) && NoRepeat(b) && Set(a) !! Set(b)
    ensures Set(a + b) == Set(a) + Set(b)
  {
    var c := a + b;
    if NoRepeat(c) {
      forall i, j | 0 <= i < j < |b| ensures b[i] != b[j] { assert c[|a| + i] == b[i] && c[|a| + j] == b[j]; }
      forall i, j | 0 <= i < j < |a| ensures a[i] != a[j] { assert c[i] == a[i] && c[j] == a[j]; }
      forall i, j | 0 <= i < |a| && 0 <= j < |b| ensures a[i] != b[j] { assert c[i] == a[i] && c[|a| + j] == b[j]; }
    } else if NoRepeat(a) && NoRepeat(b) {
      var i, j :| 0 <= i < j < |c| && c[i] == c[j];
      assert i < |a| <= j;
      assert a[i] in Set(a) && b[j - |a|] in Set(b);
    }
  }

  lemma ThreeRows(f: File, tree: nat, pg: nat, path: seq<nat>, d: nat, i: nat)
    requires IsFile(f) && IsTree(f, pg, d) && i < |f.pages[pg].cells|
    ensures RowsFrom(f, tree, pg, path, d, i)
         == OverflowRows(f.nUsable, tree, path, i, Cells(f, pg)[i], 0) + ChildRows(f, tree, pg, path, d, i)
            + RowsFrom(f, tree, pg, path, d, i + 1)
  {
    var chain := OverflowRows(f.nUsable, tree, path, i, Cells(f, pg)[i], 0);
    RowsOfCell(f, tree, pg, path, d, i);
    Regroup(chain, ChildRows(f, tree, pg, path, d, i), RowsFrom(f, tree, pg, path, d, i + 1));
  }

  lemma Regroup(a: seq<Row>, b: seq<Row>, c: seq<Row>)
    ensures a + (b + c) == a + b + c
  {
  }

  // ---- Places ----

  /** The child or cell that leads from the page at path to a place below it; -1 if the place is not below it. */
  function CellOf(p: Place, path: seq<nat>): int {
    if |p.path| > |path| && p.path[..|path|] == path then p.path[|path|]
    else if p.OnChain? && p.path == path then p.cell
    else -1
  }

  function Places(rows: seq<Row>): (places: seq<Place>)
    ensures |places| == |rows|
  {
    seq(|rows|, i requires 0 <= i < |rows| => rows[i].place)
  }

  lemma PlacesConcat(a: seq<Row>, b: seq<Row>)
    ensures Places(a + b) == Places(a) + Places(b)
  {
  }

  /** Rows below the page at path, from cell i on. */
  ghost predicate Below(rows: seq<Row>, path: seq<nat>, i: nat) {
    forall p :: p in Places(rows) ==> CellOf(p, path) >= i
  }

  /** Rows of the page at path and of what is below it. */
  ghost predicate FromPage(rows: seq<Row>, path: seq<nat>) {
    forall p :: p in Places(rows) ==> p == OnPage(path) || CellOf(p, path) >= 0
  }

  lemma ChildPlace(p: Place, path: seq<nat>, i: nat)
    requires p == OnPage(path + [i]) || CellOf(p, path + [i]) >= 0
    ensures CellOf(p, path) == i
  {
    if p != OnPage(path + [i]) && |p.path| > |path| + 1 {
      assert p.path[..|path|] == p.path[..|path| + 1][..|path|];
      assert p.path[|path|] == p.path[..|path| + 1][|path|];
    }
  }

  lemma {:induction false} ChainPlaces(nUsable: nat, tree: nat, path: seq<nat>, i: nat, c: StatCell, j: nat)
    requires nUsable > 4 && c.nOvfl == |c.aOvfl|
    ensures var rows := OverflowRows(nUsable, tree, path, i, c, j);
            && NoRepeat(Places(rows))
            && forall p :: p in Places(rows) ==> p.OnChain? && p.path == path && p.cell == i && p.iOvfl >= j
    decreases c.nOvfl - j
  {
    if j < c.nOvfl {
      var row, rest := OverflowRow(nUsable, tree, path, i, c, j), OverflowRows(nUsable, tree, path, i, c, j + 1);
      ChainPlaces(nUsable, tree, path, i, c, j + 1);
      PlacesConcat([row], rest);
      ConcatNoRepeat(Places([row]), Places(rest));
    }
  }

  /** Parts of a walk that are at different cells have no place in common. */
  lemma Apart(a: seq<Row>, b: seq<Row>, path: seq<nat>, i: nat)
    requires NoRepeat(Places(a)) && NoRepeat(Places(b)) && Below(b, path, i + 1)
    requires forall p :: p in Places(a) ==> CellOf(p, path) == i
    ensures NoRepeat(Places(a + b)) && Below(a + b, path, i)
  {
    PlacesConcat(a, b);
    ConcatNoRepeat(Places(a), Places(b));
  }

  /** An overflow chain and the child of the same cell. */
  lemma ChainAndChild(chain: seq<Row>, child: seq<Row>, path: seq<nat>, i: nat)
    requires NoRepeat(Places(chain)) && NoRepeat(Places(child))
    requires forall p :: p in Places(chain) ==> p.OnChain? && p.path == path && p.cell == i
    requires child == [] || FromPage(child, path + [i])
    ensures NoRepeat(Places(chain + child))
    ensures forall p :: p in Places(chain + child) ==> CellOf(p, path) == i
  {
    PlacesConcat(chain, child);
    ConcatNoRepeat(Places(chain), Places(child));
    forall p | p in Places(child) ensures CellOf(p, path) == i { ChildPlace(p, path, i); }
  }

  lemma CellPlaces(f: File, tree: nat, path: seq<nat>, i: nat, c: StatCell, child: seq<Row>, rest: seq<Row>)
    requires f.nUsable > 4 && c.nOvfl == |c.aOvfl|
    requires NoRepeat(Places(child)) && (child == [] || FromPage(child, path + [i]))
    requires NoRepeat(Places(rest)) && Below(rest, path, i + 1)
    ensures var rows := OverflowRows(f.nUsable, tree, path, i, c, 0) + child + rest;
            NoRepeat(Places(rows)) && Below(rows, path, i)
  {
    var chain := OverflowRows(f.nUsable, tree, path, i, c, 0);
    ChainPlaces(f.nUsable, tree, path, i, c, 0);
    ChainAndChild(chain, child, path, i);
    Apart(chain + child, rest, path, i);
  }

  /** No place comes twice among the rows below a page. */
  lemma {:induction false} PlacesFrom(f: File, tree: nat, pg: nat, path: seq<nat>, d: nat, i: nat)
    requires IsFile(f) && IsTree(f, pg, d)
    ensures NoRepeat(Places(RowsFrom(f, tree, pg, path, d, i))) && Below(RowsFrom(f, tree, pg, path, d, i), path, i)
    decreases d, |f.pages[pg].cells| + 1 - i
  {
    var p := f.pages[pg];
    if i < |p.cells| {
      if !IsLeaf(p.kind) { PlacesOnce(f, tree, p.cells[i].iChildPg, path + [i], d - 1); }
      PlacesFrom(f, tree, pg, path, d, i + 1);
      ThreeRows(f, tree, pg, path, d, i);
      CellPlaces(f, tree, path, i, Cells(f, pg)[i], ChildRows(f, tree, pg, path, d, i),
          RowsFrom(f, tree, pg, path, d, i + 1));
    } else if i == |p.cells| && !IsLeaf(p.kind) {
      PlacesOnce(f, tree, p.iRightChildPg, path + [i], d - 1);
      RightChild(Rows(f, tree, p.iRightChildPg, path + [i], d - 1), path, i);
    }
  }

  lemma RightChild(child: seq<Row>, path: seq<nat>, i: nat)
    requires FromPage(child, path + [i])
    ensures Below(child, path, i)
  {
    forall p | p in Places(child) ensures CellOf(p, path) >= i { ChildPlace(p, path, i); }
  }

  /** No place comes twice among the rows of a tree. */
  lemma {:induction false} PlacesOnce(f: File, tree: nat, pg: nat, path: seq<nat>, d: nat)
    requires IsFile(f) && IsTree(f, pg, d)
    ensures NoRepeat(Places(Rows(f, tree, pg, path, d))) && FromPage(Rows(f, tree, pg, path, d), path)
    decreases d, |f.pages[pg].cells| + 2
  {
    PlacesFrom(f, tree, pg, path, d, 0);
    var first, rest := [PageRow(f, tree, pg, path)], RowsFrom(f, tree, pg, path, d, 0);
    PlacesConcat(first, rest);
    assert Places(first) == [OnPage(path)];
    ConcatNoRepeat(Places(first), Places(rest));
  }

  // ---- Pages ----

  function Pgnos(rows: seq<Row>): (pgnos: seq<nat>)
    ensures |pgnos| == |rows|
  {
    seq(|rows|, i requires 0 <= i < |rows| => rows[i].pgno)
  }

  lemma PgnosConcat(a: seq<Row>, b: seq<Row>)
    ensures Pgnos(a + b) == Pgnos(a) + Pgnos(b)
  {
  }

  /** The pages of the child of cell i. */
  function ChildPages(f: File, pg: nat, d: nat, i: nat): set<nat>
    requires IsFile(f) && IsTree(f, pg, d) && i < |f.pages[pg].cells|
    decreases d, 0
  {
    if IsLeaf(f.pages[pg].kind) then {} else TreePages(f, f.pages[pg].cells[i].iChildPg, d - 1)
  }

  /** The pages of a tree: its root, and what its cells and its right child lead to. */
  function TreePages(f: File, pg: nat, d: nat): set<nat>
    requires IsFile(f) && IsTree(f, pg, d)
    decreases d, |f.pages[pg].cells| + 2
  {
    {pg} + PagesFrom(f, pg, d, 0)
  }

  function PagesFrom(f: File, pg: nat, d: nat, i: nat): set<nat>
    requires IsFile(f) && IsTree(f, pg, d)
    decreases d, |f.pages[pg].cells| + 1 - i
  {
    var p := f.pages[pg];
    if i < |p.cells| then Set(Cells(f, pg)[i].aOvfl) + ChildPages(f, pg, d, i) + PagesFrom(f, pg, d, i + 1)
    else if i == |p.cells| && !IsLeaf(p.kind) then TreePages(f, p.iRightChildPg, d - 1)
    else {}
  }

  /** No page of a tree is used twice: not in an overflow chain, nor by two chains or children, nor by a page itself. */
  predicate OwnsPages(f: File, pg: nat, d: nat)
    requires IsFile(f) && IsTree(f, pg, d)
    decreases d, |f.pages[pg].cells| + 2
  {
    pg !in PagesFrom(f, pg, d, 0) && OwnsFrom(f, pg, d, 0)
  }

  predicate OwnsFrom(f: File, pg: nat, d: nat, i: nat)
    requires IsFile(f) && IsTree(f, pg, d)
    decreases d, |f.pages[pg].cells| + 1 - i
  {
    var p := f.pages[pg];
    if i < |p.cells| then OwnsCell(f, pg, d, i) && OwnsFrom(f, pg, d, i + 1)
    else i == |p.cells| && !IsLeaf(p.kind) ==> OwnsPages(f, p.iRightChildPg, d - 1)
  }

  /** The chain and the child of cell i use no page twice, nor one that later cells use. */
  predicate OwnsCell(f: File, pg: nat, d: nat, i: nat)
    requires IsFile(f) && IsTree(f, pg, d) && i < |f.pages[pg].cells|
    decreases d, 0
  {
    var p, chain, child := f.pages[pg], Cells(f, pg)[i].aOvfl, ChildPages(f, pg, d, i);
    && NoRepeat(chain) && (IsLeaf(p.kind) || OwnsPages(f, p.cells[i].iChildPg, d - 1))
    && Set(chain) !! child && Set(chain) + child !! PagesFrom(f, pg, d, i + 1)
  }

  lemma {:induction false} ChainPgnos(nUsable: nat, tree: nat, path: seq<nat>, i: nat, c: StatCell, j: nat)
    requires nUsable > 4 && c.nOvfl == |c.aOvfl| && j <= c.nOvfl
    ensures Pgnos(OverflowRows(nUsable, tree, path, i, c, j)) == c.aOvfl[j..]
    decreases c.nOvfl - j
  {
    if j < c.nOvfl {
      ChainPgnos(nUsable, tree, path, i, c, j + 1);
      PgnosConcat([OverflowRow(nUsable, tree, path, i, c, j)], OverflowRows(nUsable, tree, path, i, c, j + 1));
    }
  }

  lemma ThreeParts(a: seq<Row>, b: seq<Row>, c: seq<Row>)
    ensures Set(Pgnos(a + b + c)) == Set(Pgnos(a)) + Set(Pgnos(b)) + Set(Pgnos(c))
    ensures NoRepeat(Pgnos(a + b + c)) <==>
              && NoRepeat(Pgnos(a)) && NoRepeat(Pgnos(b)) && NoRepeat(Pgnos(c))
              && Set(Pgnos(a)) !! Set(Pgnos(b)) && Set(Pgnos(a)) + Set(Pgnos(b)) !! Set(Pgnos(c))
  {
    PgnosConcat(a, b);
    PgnosConcat(a + b, c);
    ConcatNoRepeat(Pgnos(a), Pgnos(b));
    ConcatNoRepeat(Pgnos(a + b), Pgnos(c));
  }

  lemma CellPgnos(f: File, tree: nat, path: seq<nat>, i: nat, c: StatCell, child: seq<Row>, rest: seq<Row>)
    requires f.nUsable > 4 && c.nOvfl == |c.aOvfl|
    ensures var pgnos := Pgnos(OverflowRows(f.nUsable, tree, path, i, c, 0) + child + rest);
            && Set(pgnos) == Set(c.aOvfl) + Set(Pgnos(child)) + Set(Pgnos(rest))
            && (NoRepeat(pgnos) <==>
                  && NoRepeat(c.aOvfl) && NoRepeat(Pgnos(child)) && NoRepeat(Pgnos(rest))
                  && Set(c.aOvfl) !! Set(Pgnos(child)) && Set(c.aOvfl) + Set(Pgnos(child)) !! Set(Pgnos(rest)))
  {
    ChainPgnos(f.nUsable, tree, path, i, c, 0);
    assert c.aOvfl[0..] == c.aOvfl;
    ThreeParts(OverflowRows(f.nUsable, tree, path, i, c, 0), child, rest);
  }

  /** The rows below a page are its pages below, each once exactly if no page is used twice. */
  lemma {:induction false} PgnosFrom(f: File, tree: nat, pg: nat, path: seq<nat>, d: nat, i: nat)
    requires IsFile(f) && IsTree(f, pg, d)
    ensures var pgnos := Pgnos(RowsFrom(f, tree, pg, path, d, i));
            Set(pgnos) == PagesFrom(f, pg, d, i) && (NoRepeat(pgnos) <==> OwnsFrom(f, pg, d, i))
    decreases d, |f.pages[pg].cells| + 1 - i
  {
    var p := f.pages[pg];
    if i < |p.cells| {
      var child, rest := ChildRows(f, tree, pg, path, d, i), RowsFrom(f, tree, pg, path, d, i + 1);
      ChildPgnos(f, tree, pg, path, d, i);
      PgnosFrom(f, tree, pg, path, d, i + 1);
      ThreeRows(f, tree, pg, path, d, i);
      CellPgnos(f, tree, path, i, Cells(f, pg)[i], child, rest);
    } else if i == |p.cells| && !IsLeaf(p.kind) {
      TreePgnos(f, tree, p.iRightChildPg, path + [i], d - 1);
    }
  }

  lemma {:induction false} ChildPgnos(f: File, tree: nat, pg: nat, path: seq<nat>, d: nat, i: nat)
    requires IsFile(f) && IsTree(f, pg, d) && i < |f.pages[pg].cells|
    ensures var pgnos, p := Pgnos(ChildRows(f, tree, pg, path, d, i)), f.pages[pg];
            && Set(pgnos) == ChildPages(f, pg, d, i)
            && (NoRepeat(pgnos) <==> IsLeaf(p.kind) || OwnsPages(f, p.cells[i].iChildPg, d - 1))
    decreases d, 0
  {
    var p := f.pages[pg];
    if !IsLeaf(p.kind) { TreePgnos(f, tree, p.cells[i].iChildPg, path + [i], d - 1); }
  }

  lemma {:induction false} TreePgnos(f: File, tree: nat, pg: nat, path: seq<nat>, d: nat)
    requires IsFile(f) && IsTree(f, pg, d)
    ensures var pgnos := Pgnos(Rows(f, tree, pg, path, d));
            Set(pgnos) == TreePages(f, pg, d) && (NoRepeat(pgnos) <==> OwnsPages(f, pg, d))
    decreases d, |f.pages[pg].cells| + 2
  {
    PgnosFrom(f, tree, pg, path, d, 0);
    var first, rest := [PageRow(f, tree, pg, path)], RowsFrom(f, tree, pg, path, d, 0);
    PgnosConcat(first, rest);
    assert Pgnos(first) == [pg] && Set([pg]) == {pg};
    ConcatNoRepeat(Pgnos(first), Pgnos(rest));
  }

  // ---- All the trees ----

  /** The tree of each row, and its place there. */
  function Spots(rows: seq<Row>): (spots: seq<(nat, Place)>)
    ensures |spots| == |rows|
  {
    seq(|rows|, i requires 0 <= i < |rows| => (rows[i].tree, rows[i].place))
  }

  lemma SpotsConcat(a: seq<Row>, b: seq<Row>)
    ensures Spots(a + b) == Spots(a) + Spots(b)
  {
  }

  lemma {:induction false} ChainTree(nUsable: nat, tree: nat, path: seq<nat>, i: nat, c: StatCell, j: nat)
    requires nUsable > 4 && c.nOvfl == |c.aOvfl|
    ensures forall r :: r in OverflowRows(nUsable, tree, path, i, c, j) ==> r.tree == tree
    decreases c.nOvfl - j
  {
    if j < c.nOvfl { ChainTree(nUsable, tree, path, i, c, j + 1); }
  }

  lemma {:induction false} OneTreeFrom(f: File, tree: nat, pg: nat, path: seq<nat>, d: nat, i: nat)
    requires IsFile(f) && IsTree(f, pg, d)
    ensures forall r :: r in RowsFrom(f, tree, pg, path, d, i) ==> r.tree == tree
    decreases d, |f.pages[pg].cells| + 1 - i
  {
    var p := f.pages[pg];
    if i < |p.cells| {
      ChainTree(f.nUsable, tree, path, i, Cells(f, pg)[i], 0);
      if !IsLeaf(p.kind) { OneTree(f, tree, p.cells[i].iChildPg, path + [i], d - 1); }
      OneTreeFrom(f, tree, pg, path, d, i + 1);
      ThreeRows(f, tree, pg, path, d, i);
    } else if i == |p.cells| && !IsLeaf(p.kind) {
      OneTree(f, tree, p.iRightChildPg, path + [i], d - 1);
    }
  }

  lemma {:induction false} OneTree(f: File, tree: nat, pg: nat, path: seq<nat>, d: nat)
    requires IsFile(f) && IsTree(f, pg, d)
    ensures forall r :: r in Rows(f, tree, pg, path, d) ==> r.tree == tree
    decreases d, |f.pages[pg].cells| + 2
  {
    OneTreeFrom(f, tree, pg, path, d, 0);
  }

  lemma SpotsOfTree(rows: seq<Row>, tree: nat)
    requires NoRepeat(Places(rows)) && forall r :: r in rows ==> r.tree == tree
    ensures NoRepeat(Spots(rows)) && forall x :: x in Spots(rows) ==> x.0 == tree
  {
    forall i, j | 0 <= i < j < |rows| ensures Spots(rows)[i] != Spots(rows)[j] {
      assert Places(rows)[i] != Places(rows)[j];
    }
    forall x | x in Spots(rows) ensures x.0 == tree {
      var i :| 0 <= i < |rows| && Spots(rows)[i] == x;
      assert rows[i] in rows;
    }
  }

  /** No place of a tree comes twice. */
  lemma {:induction false} SpotsOnce(f: File, roots: seq<nat>, t: nat)
    requires AreRoots(f, roots)
    ensures NoRepeat(Spots(TreeRows(f, roots, t))) && forall x :: x in Spots(TreeRows(f, roots, t)) ==> x.0 >= t
    decreases |roots| - t
  {
    if t < |roots| {
      var first, rest := Rows(f, t, roots[t], [], DEPTH), TreeRows(f, roots, t + 1);
      PlacesOnce(f, t, roots[t], [], DEPTH);
      OneTree(f, t, roots[t], [], DEPTH);
      SpotsOfTree(first, t);
      SpotsOnce(f, roots, t + 1);
      SpotsConcat(first, rest);
      ConcatNoRepeat(Spots(first), Spots(rest));
    }
  }

  /** The pages of the trees from the t-th on. */
  function AllPages(f: File, roots: seq<nat>, t: nat): set<nat>
    requires AreRoots(f, roots)
    decreases |roots| - t
  {
    if t >= |roots| then {} else TreePages(f, roots[t], DEPTH) + AllPages(f, roots, t + 1)
  }

  /** No page is used twice, in one tree or in two. */
  predicate NothingShared(f: File, roots: seq<nat>, t: nat)
    requires AreRoots(f, roots)
    decreases |roots| - t
  {
    t < |roots| ==>
      && OwnsPages(f, roots[t], DEPTH) && NothingShared(f, roots, t + 1)
      && TreePages(f, roots[t], DEPTH) !! AllPages(f, roots, t + 1)
  }

  /** The rows are the pages of the trees, each once exactly if no page is used twice. */
  lemma {:induction false} PagesOnce(f: File, roots: seq<nat>, t: nat)
    requires AreRoots(f, roots)
    ensures Set(Pgnos(TreeRows(f, roots, t))) == AllPages(f, roots, t)
    ensures NoRepeat(Pgnos(TreeRows(f, roots, t))) <==> NothingShared(f, roots, t)
    decreases |roots| - t
  {
    if t < |roots| {
      var first, rest := Rows(f, t, roots[t], [], DEPTH), TreeRows(f, roots, t + 1);
      TreePgnos(f, t, roots[t], [], DEPTH);
      PagesOnce(f, roots, t + 1);
      PgnosConcat(first, rest);
      ConcatNoRepeat(Pgnos(first), Pgnos(rest));
    }
  }
}
