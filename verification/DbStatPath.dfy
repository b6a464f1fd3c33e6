/** The path column of dbstat, and when its rows come in the ascending order of their paths that it claims. */
module DbStatPath {
  import opened Basics
  import opened DbStat
  import opened DbStatOnce

  // ---- Texts ----

  /** The order of the BINARY collating sequence. */
  predicate Less(a: string, b: string) {
    if b == "" then false
    else if a == "" then true
    else if a[0] != b[0] then a[0] < b[0]
    else Less(a[1..], b[1..])
  }

  lemma {:induction false} LessSame(p: string, a: string, b: string)
    ensures Less(p + a, p + b) == Less(a, b)
  {
    if p == "" {
      assert p + a == a && p + b == b;
    } else {
      assert (p + a)[1..] == p[1..] + a && (p + b)[1..] == p[1..] + b;
      LessSame(p[1..], a, b);
    }
  }

  lemma LessLonger(p: string, a: string)
    requires a != ""
    ensures Less(p, p + a)
  {
    LessSame(p, "", a);
    assert p + "" == p;
  }

  lemma {:induction false} Irreflexive(a: string)
    ensures !Less(a, a)
  {
    if a != "" { Irreflexive(a[1..]); }
  }

  /** Texts of the same length decide before what follows them. */
  lemma {:induction false} LessThen(x: string, a: string, y: string, b: string)
    requires |x| == |y| && x != y
    ensures Less(x + a, y + b) == Less(x, y) && Less(x, y) == !Less(y, x)
  {
    if x[0] == y[0] {
      LessThen(x[1..], a, y[1..], b);
      assert (x + a)[1..] == x[1..] + a && (y + b)[1..] == y[1..] + b;
      assert x == [x[0]] + x[1..] && y == [y[0]] + y[1..];
    }
  }

  /** So do numerals that are followed by something less than a digit. */
  predicate IsNumeral(x: string) {
    forall i :: 0 <= i < |x| ==> x[i] >= '0'
  }

  lemma {:induction false} LessEnded(x: string, t: char, a: string, y: string, u: char, b: string)
    requires IsNumeral(x) && IsNumeral(y) && x != y && t < '0' && u < '0'
    ensures Less(x + [t] + a, y + [u] + b) == Less(x, y)
  {
    if x != "" && y != "" && x[0] == y[0] {
      LessEnded(x[1..], t, a, y[1..], u, b);
      assert (x + [t] + a)[1..] == x[1..] + [t] + a && (y + [u] + b)[1..] == y[1..] + [u] + b;
      assert x == [x[0]] + x[1..] && y == [y[0]] + y[1..];
    }
  }

  // ---- Numerals ----

  function HexDigit(n: nat): (c: char)
    requires n < 16
    ensures c >= '0'
  {
    if n < 10 then '0' + n as char else 'a' + (n - 10) as char
  }

  /** Hexadecimal digits, at least w of them: the formats %.3x and %.6x. */
  function Hex(n: nat, w: nat): (s: string)
    ensures |s| >= w && |s| >= 1 && IsNumeral(s)
  {
    if n < 16 && w <= 1 then [HexDigit(n)] else Hex(n / 16, if w == 0 then 0 else w - 1) + [HexDigit(n % 16)]
  }

  lemma DigitOrder(m: nat, n: nat)
    requires m < n < 16
    ensures HexDigit(m) < HexDigit(n)
  {
  }

  /** Numerals of the same length are in the order of their numbers. */
  lemma {:induction false} SameLength(m: nat, n: nat, w: nat)
    requires m < n && |Hex(m, w)| == |Hex(n, w)|
    ensures Less(Hex(m, w), Hex(n, w))
    decreases n
  {
    if n < 16 && w <= 1 {
      DigitOrder(m, n);
    } else {
      var v := if w == 0 then 0 else w - 1;
      if m / 16 < n / 16 {
        SameLength(m / 16, n / 16, v);
        Irreflexive(Hex(m / 16, v));
        LessThen(Hex(m / 16, v), [HexDigit(m % 16)], Hex(n / 16, v), [HexDigit(n % 16)]);
      } else {
        DigitOrder(m % 16, n % 16);
        assert Less([HexDigit(m % 16)], [HexDigit(n % 16)]);
        LessSame(Hex(m / 16, v), [HexDigit(m % 16)], [HexDigit(n % 16)]);
      }
    }
  }

  /** Asking for one more digit makes no difference to a number that has more than enough. */
  lemma {:induction false} Wide(n: nat, w: nat)
    requires |Hex(n, w)| > w
    ensures Hex(n, w + 1) == Hex(n, w)
    decreases n, w
  {
    if w > 0 { Wide(n / 16, w - 1); } else if n >= 16 { assert Hex(n, 1) == Hex(n, 0); }
  }

  lemma OneDigit(n: nat)
    requires n < 0x100
    ensures |Hex(n, 1)| == if n < 16 then 1 else 2
  {
    if n >= 16 { assert Hex(n / 16, 0) == [HexDigit(n / 16)]; }
  }

  lemma Width(n: nat)
    requires n < 0x1_0000
    ensures |Hex(n, 3)| == (if n < 0x1000 then 3 else 4)
    ensures n >= 0x1000 ==> Hex(n, 3) == Hex(n / 16, 3) + [HexDigit(n % 16)]
  {
    var m := n / 16;
    var l := m / 16;
    OneDigit(l);
    assert |Hex(m, 2)| == |Hex(l, 1)| + 1;
    assert Hex(n, 3) == Hex(m, 2) + [HexDigit(n % 16)];
    if n >= 0x1000 { Wide(m, 2); }
  }

  /** Cells below 0x1000 have numerals of three digits, the others of four, which can come before smaller ones. */
  predicate InOrder(m: nat, n: nat) {
    m >= 0x1000 || n < 0x1000 || m <= n / 16
  }

  lemma CellOrder(m: nat, n: nat)
    requires m < n < 0x1_0000
    ensures Less(Hex(m, 3), Hex(n, 3)) <==> InOrder(m, n)
    ensures Hex(m, 3) != Hex(n, 3)
  {
    Width(m);
    Width(n);
    Irreflexive(Hex(m, 3));
    if m >= 0x1000 || n < 0x1000 { SameLength(m, n, 3); } else { Longer(m, n); }
  }

  lemma Longer(m: nat, n: nat)
    requires m < 0x1000 <= n < 0x1_0000
    ensures Less(Hex(m, 3), Hex(n, 3)) <==> m <= n / 16
  {
    Width(m);
    Width(n);
    Width(n / 16);
    var x, y, d := Hex(m, 3), Hex(n / 16, 3), [HexDigit(n % 16)];
    assert x + [] == x;
    if m == n / 16 {
      LessLonger(x, d);
    } else {
      Irreflexive(x);
      if m < n / 16 { SameLength(m, n / 16, 3); } else { SameLength(n / 16, m, 3); }
      LessThen(x, [], y, d);
    }
  }

  // ---- Paths ----

  /** The path of a page: '/' for the root, and '/001/' for its second child. */
  function PathOf(path: seq<nat>): string {
    if path == [] then "/" else PathOf(path[..|path| - 1]) + Hex(path[|path| - 1], 3) + "/"
  }

  /** An overflow page has '+' and its place in the chain after the cell. */
  function Text(p: Place): string {
    match p
    case OnPage(path) => PathOf(path)
    case OnChain(path, cell, iOvfl) => PathOf(path) + Hex(cell, 3) + "+" + Hex(iOvfl, 6)
  }

  /** The path goes on from a page with this prefix through cell i: c is '+' or '/'. */
  ghost predicate Through(s: string, prefix: string, i: nat, c: char) {
    exists rest :: s == prefix + (Hex(i, 3) + [c] + rest)
  }

  ghost predicate IsThrough(s: string, prefix: string, i: nat) {
    Through(s, prefix, i, '+') || Through(s, prefix, i, '/')
  }

  /** Paths through two cells are in the order of the numerals of the cells. */
  lemma ThroughCells(s: string, t: string, prefix: string, i: nat, j: nat)
    requires IsThrough(s, prefix, i) && IsThrough(t, prefix, j) && Hex(i, 3) != Hex(j, 3)
    ensures Less(s, t) == Less(Hex(i, 3), Hex(j, 3))
  {
    var c := if Through(s, prefix, i, '+') then '+' else '/';
    var d := if Through(t, prefix, j, '+') then '+' else '/';
    var a :| s == prefix + (Hex(i, 3) + [c] + a);
    var b :| t == prefix + (Hex(j, 3) + [d] + b);
    LessSame(prefix, Hex(i, 3) + [c] + a, Hex(j, 3) + [d] + b);
    LessEnded(Hex(i, 3), c, a, Hex(j, 3), d, b);
  }

  /** In a cell overflow pages come before the child. */
  lemma ChainFirst(s: string, t: string, prefix: string, i: nat)
    requires Through(s, prefix, i, '+') && Through(t, prefix, i, '/')
    ensures Less(s, t)
  {
    var a :| s == prefix + (Hex(i, 3) + ['+'] + a);
    var b :| t == prefix + (Hex(i, 3) + ['/'] + b);
    LessSame(prefix, Hex(i, 3) + ['+'] + a, Hex(i, 3) + ['/'] + b);
    Follow(Hex(i, 3), '+', a);
    Follow(Hex(i, 3), '/', b);
    LessSame(Hex(i, 3), ['+'] + a, ['/'] + b);
  }

  lemma Follow(x: string, c: char, a: string)
    ensures x + [c] + a == x + ([c] + a)
  {
  }

  lemma PathBelow(path: seq<nat>, i: nat)
    ensures PathOf(path + [i]) == PathOf(path) + Hex(i, 3) + "/"
  {
    assert (path + [i])[..|path|] == path;
  }

  /** The path of a page starts with that of each page above it, and the way down from there. */
  lemma {:induction false} PathThrough(path: seq<nat>, n: nat) returns (rest: string)
    requires n < |path|
    ensures PathOf(path) == PathOf(path[..n]) + (Hex(path[n], 3) + ['/'] + rest)
  {
    var k := |path| - 1;
    var prefix := PathOf(path[..n]);
    if n == k {
      rest := "";
      assert Hex(path[n], 3) + ['/'] + rest == Hex(path[n], 3) + "/";
      assert prefix + Hex(path[n], 3) + "/" == prefix + (Hex(path[n], 3) + "/");
    } else {
      var before := PathThrough(path[..k], n);
      assert path[..k][..n] == path[..n];
      rest := before + (Hex(path[k], 3) + "/");
      MoveIn(prefix, Hex(path[n], 3) + ['/'], before, Hex(path[k], 3), "/");
    }
  }

  lemma MoveIn(a: string, b: string, c: string, d: string, e: string)
    ensures a + (b + c) + d + e == a + (b + (c + (d + e)))
  {
  }

  /** The place of a row below a page is through a cell of the page. */
  lemma PlaceThrough(p: Place, path: seq<nat>)
    requires CellOf(p, path) >= 0
    ensures Through(Text(p), PathOf(path), CellOf(p, path), if p.OnChain? && p.path == path then '+' else '/')
  {
    var prefix, i := PathOf(path), CellOf(p, path);
    if p.OnChain? && p.path == path {
      var rest := Hex(p.iOvfl, 6);
      assert Text(p) == prefix + (Hex(i, 3) + ['+'] + rest);
    } else {
      var rest := PathThrough(p.path, |path|);
      if p.OnChain? {
        var more := Hex(p.cell, 3) + "+" + Hex(p.iOvfl, 6);
        assert Text(p) == prefix + (Hex(i, 3) + ['/'] + (rest + more));
      } else {
        assert Text(p) == prefix + (Hex(i, 3) + ['/'] + rest);
      }
    }
  }

  // ---- Rows in order ----

  predicate Before(r: Row, s: Row) {
    Less(Text(r.place), Text(s.place))
  }

  /** The rows are in the ascending order of their paths. */
  ghost predicate Ascend(rows: seq<Row>) {
    forall i, j :: 0 <= i < j < |rows| ==> Before(rows[i], rows[j])
  }

  ghost predicate AllBefore(a: seq<Row>, b: seq<Row>) {
    forall i, j :: 0 <= i < |a| && 0 <= j < |b| ==> Before(a[i], b[j])
  }

  lemma AscendConcat(a: seq<Row>, b: seq<Row>)
    ensures Ascend(a + b) <==> Ascend(a) && Ascend(b) && AllBefore(a, b)
  {
    var c := a + b;
    if Ascend(c) {
      forall i, j | 0 <= i < j < |a| ensures Before(a[i], a[j]) { assert Before(c[i], c[j]); }
      forall i, j | 0 <= i < j < |b| ensures Before(b[i], b[j]) { assert Before(c[|a| + i], c[|a| + j]); }
      forall i, j | 0 <= i < |a| && 0 <= j < |b| ensures Before(a[i], b[j]) { assert Before(c[i], c[|a| + j]); }
    }
  }

  /** Cell i of a page has rows: overflow pages, or a child. The right child counts as the cell after the last. */
  predicate HasRows(f: File, pg: nat, i: nat)
    requires IsFile(f) && pg in f.pages && f.pages[pg].BtreePage?
  {
    var p := f.pages[pg];
    (!IsLeaf(p.kind) && i <= |p.cells|) || (i < |p.cells| && Cells(f, pg)[i].nOvfl > 0)
  }

  /** Of two cells of a page from i on that have rows, the first has the smaller numeral. */
  ghost predicate PairsAscend(f: File, pg: nat, i: nat)
    requires IsFile(f) && pg in f.pages && f.pages[pg].BtreePage?
  {
    forall a, b {:trigger HasRows(f, pg, a), HasRows(f, pg, b)} ::
      i <= a < b && HasRows(f, pg, a) && HasRows(f, pg, b) ==> InOrder(a, b)
  }

  /** The child below cell i of a page that is no leaf; the right child is that of the cell after the last. */
  function Below(f: File, pg: nat, i: nat): nat
    requires pg in f.pages && f.pages[pg].BtreePage? && i <= |f.pages[pg].cells|
  {
    if i < |f.pages[pg].cells| then f.pages[pg].cells[i].iChildPg else f.pages[pg].iRightChildPg
  }

  /**
   An interior page has fewer than 4096 cells, and on a leaf the cells with overflow pages have ascending numerals, on
   all the pages of a tree.
   */
  ghost predicate CellsAscend(f: File, pg: nat, d: nat)
    requires IsFile(f) && IsTree(f, pg, d)
    decreases d
  {
    var p := f.pages[pg];
    if IsLeaf(p.kind) then
      forall a, b {:trigger Cells(f, pg)[a], Cells(f, pg)[b]} ::
        0 <= a < b < |p.cells| && Cells(f, pg)[a].nOvfl > 0 && Cells(f, pg)[b].nOvfl > 0 ==> InOrder(a, b)
    else
      && |p.cells| < 0x1000
      && forall i {:trigger Below(f, pg, i)} :: 0 <= i <= |p.cells| ==> CellsAscend(f, Below(f, pg, i), d - 1)
  }

  ghost predicate ChildrenAscend(f: File, pg: nat, d: nat, i: nat)
    requires IsFile(f) && IsTree(f, pg, d)
  {
    forall k {:trigger Below(f, pg, k)} ::
      i <= k <= |f.pages[pg].cells| && !IsLeaf(f.pages[pg].kind) ==> CellsAscend(f, Below(f, pg, k), d - 1)
  }

  lemma Condition(f: File, pg: nat, d: nat)
    requires IsFile(f) && IsTree(f, pg, d) && |f.pages[pg].cells| <= 0xffff
    ensures CellsAscend(f, pg, d) <==> PairsAscend(f, pg, 0) && ChildrenAscend(f, pg, d, 0)
  {
    var p := f.pages[pg];
    if IsLeaf(p.kind) {
      forall a, b
        | 0 <= a < b < |p.cells| && PairsAscend(f, pg, 0) && Cells(f, pg)[a].nOvfl > 0 && Cells(f, pg)[b].nOvfl > 0
        ensures InOrder(a, b)
      {
        assert HasRows(f, pg, a) && HasRows(f, pg, b);
      }
    } else if |p.cells| >= 0x1000 {
      assert HasRows(f, pg, 0xfff) && HasRows(f, pg, 0x1000) && !InOrder(0xfff, 0x1000);
    }
  }

  /** Fields of the file format: the number of cells has two bytes, and the size of a record four. */
  ghost predicate IsStored(f: File) {
    forall pg {:trigger f.pages[pg]} :: pg in f.pages && f.pages[pg].BtreePage? ==>
      && |f.pages[pg].cells| <= 0xffff
      && forall i :: 0 <= i < |f.pages[pg].cells| ==> f.pages[pg].cells[i].nPayload <= 0xffff_ffff
  }

  // ---- Overflow chains ----

  function Pow16(w: nat): nat {
    if w == 0 then 1 else 16 * Pow16(w - 1)
  }

  lemma {:induction false} Narrow(n: nat, w: nat)
    requires w > 0 && n < Pow16(w)
    ensures |Hex(n, w)| == w
  {
    if w > 1 { Narrow(n / 16, w - 1); } else { assert Pow16(0) == 1; }
  }

  lemma SixDigits(n: nat)
    requires n < 0x100_0000
    ensures |Hex(n, 6)| == 6
  {
    assert Pow16(3) == 0x1000;
    assert Pow16(6) == 0x100_0000;
    Narrow(n, 6);
  }

  lemma ChainOrder(path: seq<nat>, i: nat, k: nat, l: nat)
    requires k < l < 0x100_0000
    ensures Less(Text(OnChain(path, i, k)), Text(OnChain(path, i, l)))
  {
    SixDigits(k);
    SixDigits(l);
    SameLength(k, l, 6);
    LessSame(PathOf(path) + Hex(i, 3) + "+", Hex(k, 6), Hex(l, 6));
  }

  lemma {:induction false} ChainAscends(nUsable: nat, tree: nat, path: seq<nat>, i: nat, c: StatCell, j: nat)
    requires nUsable > 4 && c.nOvfl == |c.aOvfl| <= 0x100_0000
    ensures var rows := OverflowRows(nUsable, tree, path, i, c, j);
            && Ascend(rows)
            && forall r :: r in rows ==>
                r.place.OnChain? && r.place == OnChain(path, i, r.place.iOvfl) && j <= r.place.iOvfl < c.nOvfl
    decreases c.nOvfl - j
  {
    if j < c.nOvfl {
      ChainAscends(nUsable, tree, path, i, c, j + 1);
      var first, rest := [OverflowRow(nUsable, tree, path, i, c, j)], OverflowRows(nUsable, tree, path, i, c, j + 1);
      forall l | 0 <= l < |rest| ensures Before(first[0], rest[l]) {
        assert rest[l] in rest;
        ChainOrder(path, i, j, rest[l].place.iOvfl);
      }
      AscendConcat(first, rest);
    }
  }

  lemma ChainShort(f: File, kind: Kind, c: RawCell)
    requires IsFile(f) && c.nPayload <= 0xffff_ffff
    ensures DecodeCell(f, kind, c).nOvfl <= 0x100_0000
  {
    var n := Record(kind, c);
    LocalPayloadOk(f.nUsable, kind, n);
    OverflowOk(n - LocalPayload(f.nUsable, kind, n), f.nUsable);
    var k, d := DecodeCell(f, kind, c).nOvfl, f.nUsable - 4;
    if k > 0x100_0000 { MulLe(0x100_0000, k - 1, d); }
  }

  // ---- Trees ----

  /** Rows of cell i of the page at path. */
  ghost predicate AtCell(rows: seq<Row>, path: seq<nat>, i: nat) {
    forall r :: r in rows ==> CellOf(r.place, path) == i
  }

  /** Rows of later cells. */
  ghost predicate AtCells(f: File, rows: seq<Row>, pg: nat, path: seq<nat>, i: nat)
    requires IsFile(f) && pg in f.pages && f.pages[pg].BtreePage?
  {
    && (forall r :: r in rows ==> CellOf(r.place, path) >= i && HasRows(f, pg, CellOf(r.place, path)))
    && (forall b {:trigger HasRows(f, pg, b)} :: b >= i && HasRows(f, pg, b) ==>
          exists r :: r in rows && CellOf(r.place, path) == b)
  }

  /** Rows at two cells of a page are in the order of the cells' numerals. */
  lemma TwoCells(r: Row, s: Row, path: seq<nat>)
    requires 0 <= CellOf(r.place, path) < CellOf(s.place, path) < 0x1_0000
    ensures Before(r, s) <==> InOrder(CellOf(r.place, path), CellOf(s.place, path))
  {
    PlaceThrough(r.place, path);
    PlaceThrough(s.place, path);
    CellOrder(CellOf(r.place, path), CellOf(s.place, path));
    ThroughCells(Text(r.place), Text(s.place), PathOf(path), CellOf(r.place, path), CellOf(s.place, path));
  }

  lemma AtCellsConcat(f: File, a: seq<Row>, b: seq<Row>, pg: nat, path: seq<nat>, i: nat)
    requires IsFile(f) && pg in f.pages && f.pages[pg].BtreePage?
    requires AtCell(a, path, i) && (a != [] <==> HasRows(f, pg, i)) && AtCells(f, b, pg, path, i + 1)
    ensures AtCells(f, a + b, pg, path, i)
  {
    if a != [] { assert a[0] in a + b; }
    assert forall r :: r in b ==> r in a + b;
  }

  /** The rows of a cell come before those of later cells exactly if its numeral is less than theirs. */
  lemma CellFirst(f: File, a: seq<Row>, b: seq<Row>, pg: nat, path: seq<nat>, i: nat)
    requires IsFile(f) && pg in f.pages && f.pages[pg].BtreePage? && |f.pages[pg].cells| <= 0xffff
    requires AtCell(a, path, i) && (a != [] <==> HasRows(f, pg, i)) && AtCells(f, b, pg, path, i + 1)
    ensures AllBefore(a, b) && PairsAscend(f, pg, i + 1) <==> PairsAscend(f, pg, i)
  {
    if AllBefore(a, b) {
      forall k {:trigger HasRows(f, pg, k)} | i < k && HasRows(f, pg, i) && HasRows(f, pg, k) ensures InOrder(i, k) {
        var r :| r in b && CellOf(r.place, path) == k;
        var j :| 0 <= j < |b| && b[j] == r;
        assert a[0] in a && Before(a[0], b[j]);
        TwoCells(a[0], r, path);
      }
    }
    if PairsAscend(f, pg, i) {
      forall k, j | 0 <= k < |a| && 0 <= j < |b| ensures Before(a[k], b[j]) {
        assert a[k] in a && b[j] in b;
        TwoCells(a[k], b[j], path);
      }
    }
  }

  /** The overflow pages of a cell and its child. */
  lemma ChainThenChild(chain: seq<Row>, child: seq<Row>, path: seq<nat>, i: nat)
    requires forall r :: r in chain ==> r.place.OnChain? && r.place.path == path && r.place.cell == i
    requires child != [] ==> FromPage(child, path + [i])
    ensures AtCell(chain + child, path, i) && AllBefore(chain, child)
  {
    forall r | r in child
      ensures CellOf(r.place, path) == i && Through(Text(r.place), PathOf(path), i, '/')
    {
      var k :| 0 <= k < |child| && child[k] == r;
      assert Places(child)[k] == r.place;
      ChildPlace(r.place, path, i);
      PlaceThrough(r.place, path);
    }
    forall k, l | 0 <= k < |chain| && 0 <= l < |child|
      ensures Before(chain[k], child[l])
    {
      assert chain[k] in chain && child[l] in child;
      PlaceThrough(chain[k].place, path);
      ChainFirst(Text(chain[k].place), Text(child[l].place), PathOf(path), i);
    }
  }

  /** The rows of one cell: where they are, and whether they ascend. */
  lemma CellRows(f: File, tree: nat, pg: nat, path: seq<nat>, i: nat, child: seq<Row>)
    requires IsFile(f) && IsStored(f) && pg in f.pages && f.pages[pg].BtreePage? && i < |f.pages[pg].cells|
    requires child != [] <==> !IsLeaf(f.pages[pg].kind)
    requires child != [] ==> FromPage(child, path + [i])
    ensures var rows := OverflowRows(f.nUsable, tree, path, i, Cells(f, pg)[i], 0) + child;
            AtCell(rows, path, i) && (rows != [] <==> HasRows(f, pg, i)) && (Ascend(rows) <==> Ascend(child))
  {
    var c := Cells(f, pg)[i];
    var chain := OverflowRows(f.nUsable, tree, path, i, c, 0);
    ChainShort(f, f.pages[pg].kind, f.pages[pg].cells[i]);
    ChainAscends(f.nUsable, tree, path, i, c, 0);
    ChainThenChild(chain, child, path, i);
    AscendConcat(chain, child);
  }

  lemma PagesFirst(r: Row, rows: seq<Row>, path: seq<nat>)
    requires r.place == OnPage(path) && forall s :: s in rows ==> CellOf(s.place, path) >= 0
    ensures AllBefore([r], rows)
  {
    forall j | 0 <= j < |rows|
      ensures Before(r, rows[j])
    {
      assert rows[j] in rows;
      PlaceThrough(rows[j].place, path);
      var i := CellOf(rows[j].place, path);
      var c := if rows[j].place.OnChain? && rows[j].place.path == path then '+' else '/';
      var rest :| Text(rows[j].place) == PathOf(path) + (Hex(i, 3) + [c] + rest);
      LessLonger(PathOf(path), Hex(i, 3) + [c] + rest);
    }
  }

  lemma ChildrenFrom(f: File, pg: nat, d: nat, i: nat)
    requires IsFile(f) && IsTree(f, pg, d) && i <= |f.pages[pg].cells| && !IsLeaf(f.pages[pg].kind)
    ensures ChildrenAscend(f, pg, d, i) <==> CellsAscend(f, Below(f, pg, i), d - 1) && ChildrenAscend(f, pg, d, i + 1)
  {
    if CellsAscend(f, Below(f, pg, i), d - 1) && ChildrenAscend(f, pg, d, i + 1) {
      assert forall k {:trigger Below(f, pg, k)} :: i <= k <= |f.pages[pg].cells| ==> k == i || i + 1 <= k;
    }
  }

  /** The rows of cell i, which ascend exactly if those of its child do. */
  ghost predicate AreOfCell(f: File, rows: seq<Row>, pg: nat, path: seq<nat>, d: nat, i: nat)
    requires IsFile(f) && IsTree(f, pg, d) && i <= |f.pages[pg].cells|
  {
    && AtCell(rows, path, i) && (rows != [] <==> HasRows(f, pg, i))
    && (Ascend(rows) <==> IsLeaf(f.pages[pg].kind) || CellsAscend(f, Below(f, pg, i), d - 1))
  }

  /** The rows below a page from cell i on, and when they ascend. */
  ghost predicate AreFrom(f: File, rows: seq<Row>, pg: nat, path: seq<nat>, d: nat, i: nat)
    requires IsFile(f) && IsTree(f, pg, d)
  {
    AtCells(f, rows, pg, path, i) && (Ascend(rows) <==> PairsAscend(f, pg, i) && ChildrenAscend(f, pg, d, i))
  }

  lemma NoRows(f: File, pg: nat, path: seq<nat>, d: nat, i: nat)
    requires IsFile(f) && IsTree(f, pg, d)
    requires i > |f.pages[pg].cells| || (i == |f.pages[pg].cells| && IsLeaf(f.pages[pg].kind))
    ensures AreFrom(f, [], pg, path, d, i)
  {
  }

  /** The rows of a cell and then those of later ones. */
  lemma CellThenRest(f: File, a: seq<Row>, rest: seq<Row>, pg: nat, path: seq<nat>, d: nat, i: nat)
    requires IsFile(f) && IsTree(f, pg, d) && |f.pages[pg].cells| <= 0xffff && i <= |f.pages[pg].cells|
    requires AreOfCell(f, a, pg, path, d, i) && AreFrom(f, rest, pg, path, d, i + 1)
    ensures AreFrom(f, a + rest, pg, path, d, i)
  {
    AtCellsConcat(f, a, rest, pg, path, i);
    CellFirst(f, a, rest, pg, path, i);
    AscendConcat(a, rest);
    assert PairsAscend(f, pg, i) ==> PairsAscend(f, pg, i + 1);
    if !IsLeaf(f.pages[pg].kind) { ChildrenFrom(f, pg, d, i); }
  }

  /** The rows of cell i. */
  lemma {:induction false} CellAscends(f: File, tree: nat, pg: nat, path: seq<nat>, d: nat, i: nat)
    requires IsFile(f) && IsTree(f, pg, d) && IsStored(f) && i < |f.pages[pg].cells|
    ensures var a := OverflowRows(f.nUsable, tree, path, i, Cells(f, pg)[i], 0) + ChildRows(f, tree, pg, path, d, i);
            AreOfCell(f, a, pg, path, d, i)
    decreases d, 0, 0
  {
    if !IsLeaf(f.pages[pg].kind) { AscendIff(f, tree, Below(f, pg, i), path + [i], d - 1); }
    CellRows(f, tree, pg, path, i, ChildRows(f, tree, pg, path, d, i));
  }

  /** The rows of the right child. */
  lemma {:induction false} RightAscends(f: File, tree: nat, pg: nat, path: seq<nat>, d: nat)
    requires IsFile(f) && IsTree(f, pg, d) && IsStored(f) && !IsLeaf(f.pages[pg].kind)
    ensures var i := |f.pages[pg].cells|;
            AreOfCell(f, Rows(f, tree, f.pages[pg].iRightChildPg, path + [i], d - 1), pg, path, d, i)
    decreases d, 0, 0
  {
    var i := |f.pages[pg].cells|;
    var a := Rows(f, tree, f.pages[pg].iRightChildPg, path + [i], d - 1);
    AscendIff(f, tree, f.pages[pg].iRightChildPg, path + [i], d - 1);
    ChainThenChild([], a, path, i);
    assert [] + a == a;
  }

  /** The rows below a page from cell i on. */
  lemma {:induction false} AscendFrom(f: File, tree: nat, pg: nat, path: seq<nat>, d: nat, i: nat)
    requires IsFile(f) && IsTree(f, pg, d) && IsStored(f) && i <= |f.pages[pg].cells| + 1
    ensures AreFrom(f, RowsFrom(f, tree, pg, path, d, i), pg, path, d, i)
    decreases d, |f.pages[pg].cells| + 1 - i
  {
    var p := f.pages[pg];
    if i < |p.cells| {
      CellAscends(f, tree, pg, path, d, i);
      AscendFrom(f, tree, pg, path, d, i + 1);
      CellFrom(f, tree, pg, path, d, i);
    } else if i == |p.cells| && !IsLeaf(p.kind) {
      RightFrom(f, tree, pg, path, d);
    } else {
      NoRows(f, pg, path, d, i);
    }
  }

  lemma CellFrom(f: File, tree: nat, pg: nat, path: seq<nat>, d: nat, i: nat)
    requires IsFile(f) && IsTree(f, pg, d) && IsStored(f) && i < |f.pages[pg].cells|
    requires var a := OverflowRows(f.nUsable, tree, path, i, Cells(f, pg)[i], 0) + ChildRows(f, tree, pg, path, d, i);
             AreOfCell(f, a, pg, path, d, i)
    requires AreFrom(f, RowsFrom(f, tree, pg, path, d, i + 1), pg, path, d, i + 1)
    ensures AreFrom(f, RowsFrom(f, tree, pg, path, d, i), pg, path, d, i)
  {
    ThreeRows(f, tree, pg, path, d, i);
    CellThenRest(f, OverflowRows(f.nUsable, tree, path, i, Cells(f, pg)[i], 0) + ChildRows(f, tree, pg, path, d, i),
                 RowsFrom(f, tree, pg, path, d, i + 1), pg, path, d, i);
  }

  lemma {:induction false} RightFrom(f: File, tree: nat, pg: nat, path: seq<nat>, d: nat)
    requires IsFile(f) && IsTree(f, pg, d) && IsStored(f) && !IsLeaf(f.pages[pg].kind)
    ensures var i := |f.pages[pg].cells|;
            AreFrom(f, RowsFrom(f, tree, pg, path, d, i), pg, path, d, i)
    decreases d, 0, 1
  {
    var i := |f.pages[pg].cells|;
    var right := Rows(f, tree, f.pages[pg].iRightChildPg, path + [i], d - 1);
    RightAscends(f, tree, pg, path, d);
    NoRows(f, pg, path, d, i + 1);
    CellThenRest(f, right, [], pg, path, d, i);
    assert right + [] == right;
  }

  /** The rows of a tree are in the ascending order of their paths exactly under the condition. */
  lemma {:induction false} AscendIff(f: File, tree: nat, pg: nat, path: seq<nat>, d: nat)
    requires IsFile(f) && IsTree(f, pg, d) && IsStored(f)
    ensures Ascend(Rows(f, tree, pg, path, d)) <==> CellsAscend(f, pg, d)
    ensures FromPage(Rows(f, tree, pg, path, d), path)
    decreases d, |f.pages[pg].cells| + 2
  {
    var first, rest := [PageRow(f, tree, pg, path)], RowsFrom(f, tree, pg, path, d, 0);
    PlacesOnce(f, tree, pg, path, d);
    AscendFrom(f, tree, pg, path, d, 0);
    PagesFirst(first[0], rest, path);
    AscendConcat(first, rest);
    Condition(f, pg, d);
  }

  // ---- All the trees ----

  /** Rows of the same tree come in the ascending order of their paths. The trees come in the order of the statement. */
  ghost predicate TreesAscend(rows: seq<Row>) {
    forall i, j :: 0 <= i < j < |rows| ==>
      rows[i].tree < rows[j].tree || (rows[i].tree == rows[j].tree && Before(rows[i], rows[j]))
  }

  lemma OneMoreTree(a: seq<Row>, b: seq<Row>, t: nat)
    requires (forall r :: r in a ==> r.tree == t) && forall x :: x in Spots(b) ==> x.0 > t
    ensures TreesAscend(a + b) <==> Ascend(a) && TreesAscend(b)
  {
    var c := a + b;
    forall j | 0 <= j < |b| ensures b[j].tree > t { assert Spots(b)[j] in Spots(b); }
    forall i | 0 <= i < |a| ensures a[i].tree == t { assert a[i] in a; }
    if TreesAscend(c) {
      forall i, j | 0 <= i < j < |a| ensures Before(a[i], a[j]) { assert c[i] == a[i] && c[j] == a[j]; }
      forall i, j | 0 <= i < j < |b|
        ensures b[i].tree < b[j].tree || (b[i].tree == b[j].tree && Before(b[i], b[j]))
      {
        assert c[|a| + i] == b[i] && c[|a| + j] == b[j];
      }
    }
  }

  /** The trees from the t-th on meet the condition. */
  ghost predicate AllAscend(f: File, roots: seq<nat>, t: nat)
    requires AreRoots(f, roots)
  {
    forall k {:trigger roots[k]} :: t <= k < |roots| ==> CellsAscend(f, roots[k], DEPTH)
  }

  lemma FirstAscends(f: File, roots: seq<nat>, t: nat)
    requires AreRoots(f, roots) && t < |roots|
    ensures AllAscend(f, roots, t) <==> CellsAscend(f, roots[t], DEPTH) && AllAscend(f, roots, t + 1)
  {
  }

  lemma TreeAscends(f: File, roots: seq<nat>, t: nat, rest: seq<Row>)
    requires AreRoots(f, roots) && IsStored(f) && t < |roots| && forall x :: x in Spots(rest) ==> x.0 > t
    ensures TreesAscend(Rows(f, t, roots[t], [], DEPTH) + rest)
       <==> CellsAscend(f, roots[t], DEPTH) && TreesAscend(rest)
  {
    AscendIff(f, t, roots[t], [], DEPTH);
    OneTree(f, t, roots[t], [], DEPTH);
    OneMoreTree(Rows(f, t, roots[t], [], DEPTH), rest, t);
  }

  /** The rows of a scan are in the order that the table claims exactly if each tree meets the condition. */
  lemma {:induction false} ScanAscends(f: File, roots: seq<nat>, t: nat)
    requires AreRoots(f, roots) && IsStored(f)
    ensures TreesAscend(TreeRows(f, roots, t)) <==> AllAscend(f, roots, t)
    decreases |roots| - t
  {
    if t < |roots| {
      SpotsOnce(f, roots, t + 1);
      TreeAscends(f, roots, t, TreeRows(f, roots, t + 1));
      ScanAscends(f, roots, t + 1);
      FirstAscends(f, roots, t);
    }
  }

  /** With fewer than 4096 cells on every page they always are. */
  lemma {:induction false} FewCells(f: File, pg: nat, d: nat)
    requires IsFile(f) && IsTree(f, pg, d)
    requires forall x {:trigger f.pages[x]} :: x in f.pages && f.pages[x].BtreePage? ==> |f.pages[x].cells| < 0x1000
    ensures CellsAscend(f, pg, d)
    decreases d
  {
    var p := f.pages[pg];
    if !IsLeaf(p.kind) {
      forall i {:trigger Below(f, pg, i)} | 0 <= i <= |p.cells|
        ensures CellsAscend(f, Below(f, pg, i), d - 1)
      {
        FewCells(f, Below(f, pg, i), d - 1);
      }
    }
  }
}
