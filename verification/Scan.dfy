/**
 The scan of an index in key order, as ANALYZE sees it: what the exact statistics of a row
 are, and how they follow from the column where each row first differs from the one before.
 */
module Scan {
  import Lex

  type Row = seq<int>

  /** Rows of nCol columns, in strictly increasing key order. */
  ghost predicate IsScan(rows: seq<Row>, nCol: nat) {
    && (forall i :: 0 <= i < |rows| ==> |rows[i]| == nCol)
    && (forall i, k {:trigger Lex.Less(rows[i], rows[k])} :: 0 <= i < k < |rows| ==> Lex.Less(rows[i], rows[k]))
  }

  /** Columns 0..j of a row. */
  function Lead(row: Row, j: nat): Row
    requires j < |row|
  {
    row[..j + 1]
  }

  // ---- The statistics themselves, by definition ----

  /** The rows that agree with row r on columns 0..j. */
  ghost function EqualRows(rows: seq<Row>, nCol: nat, r: nat, j: nat): set<int>
    requires IsScan(rows, nCol) && r < |rows| && j < nCol
  {
    set i | 0 <= i < |rows| && Lead(rows[i], j) == Lead(rows[r], j)
  }

  /** The rows whose columns 0..j sort before those of row r. */
  ghost function LesserRows(rows: seq<Row>, nCol: nat, r: nat, j: nat): set<int>
    requires IsScan(rows, nCol) && r < |rows| && j < nCol
  {
    set i | 0 <= i < |rows| && Lex.Less(Lead(rows[i], j), Lead(rows[r], j))
  }

  /** The values that columns 0..j have in the rows before row n. */
  ghost function LeadsBefore(rows: seq<Row>, nCol: nat, n: nat, j: nat): set<Row>
    requires IsScan(rows, nCol) && n <= |rows| && j < nCol
  {
    if n == 0 then {} else LeadsBefore(rows, nCol, n - 1, j) + {Lead(rows[n - 1], j)}
  }

  /** The distinct values of columns 0..j that sort before those of row r. */
  ghost function LesserPrefixes(rows: seq<Row>, nCol: nat, r: nat, j: nat): set<Row>
    requires IsScan(rows, nCol) && r < |rows| && j < nCol
  {
    set p | p in LeadsBefore(rows, nCol, |rows|, j) && Lex.Less(p, Lead(rows[r], j))
  }

  // ---- The same from change positions: c[k] is the first column where row k differs from row k-1 ----

  ghost predicate IsChanges(c: seq<nat>, nCol: nat) {
    && (forall k :: 0 <= k < |c| ==> c[k] < nCol)
    && (c != [] ==> c[0] == 0)
  }

  /** First row of the run of rows that agree with row r on columns 0..j. */
  function Start(c: seq<nat>, r: nat, j: nat): (s: nat)
    requires r < |c|
    ensures s <= r
  {
    if r == 0 || c[r] <= j then r else Start(c, r - 1, j)
  }

  /** One past the last row of that run, among the rows seen so far. */
  function End(c: seq<nat>, r: nat, j: nat): (e: nat)
    requires r < |c|
    ensures r < e <= |c|
    decreases |c| - r
  {
    if r + 1 == |c| || c[r + 1] <= j then r + 1 else End(c, r + 1, j)
  }

  /** How many runs of columns 0..j start after row 0 and not after row r. */
  function Runs(c: seq<nat>, r: nat, j: nat): nat
    requires r < |c|
  {
    if r == 0 then 0 else Runs(c, r - 1, j) + (if c[r] <= j then 1 else 0)
  }

  function Count(c: seq<nat>, r: nat, j: nat): nat
    requires r < |c|
  {
    End(c, r, j) - Start(c, r, j)
  }

  /** The run of row r is the one being scanned. */
  predicate Open(c: seq<nat>, r: nat, j: nat)
    requires r < |c|
  {
    Start(c, |c| - 1, j) <= r
  }

  function ChangeOf(rows: seq<Row>, nCol: nat, k: nat): (x: nat)
    requires IsScan(rows, nCol) && nCol > 0 && k < |rows|
    ensures x < nCol
  {
    if k == 0 then 0
    else
      assert Lex.Less(rows[k - 1], rows[k]);
      Lex.FirstDiff(rows[k - 1], rows[k])
  }

  function Changes(rows: seq<Row>, nCol: nat): (c: seq<nat>)
    requires IsScan(rows, nCol) && nCol > 0
    ensures |c| == |rows| && IsChanges(c, nCol)
    ensures forall k :: 0 <= k < |c| ==> c[k] == ChangeOf(rows, nCol, k)
  {
    seq(|rows|, k requires 0 <= k < |rows| => ChangeOf(rows, nCol, k))
  }

  // ---- Runs as intervals ----

  lemma {:induction false} StartIs(c: seq<nat>, r: nat, j: nat, s: nat)
    requires s <= r < |c|
    requires s == 0 || c[s] <= j
    requires forall k :: s < k <= r ==> c[k] > j
    ensures Start(c, r, j) == s
  {
    if s < r { StartIs(c, r - 1, j, s); }
  }

  lemma {:induction false} StartBounds(c: seq<nat>, r: nat, j: nat)
    requires r < |c|
    ensures var s := Start(c, r, j); s == 0 || c[s] <= j
    ensures forall k :: Start(c, r, j) < k <= r ==> c[k] > j
  {
    if r > 0 && c[r] > j { StartBounds(c, r - 1, j); }
  }

  lemma {:induction false} EndBounds(c: seq<nat>, r: nat, j: nat)
    requires r < |c|
    ensures var e := End(c, r, j); e == |c| || c[e] <= j
    ensures forall k :: r < k < End(c, r, j) ==> c[k] > j
    decreases |c| - r
  {
    if r + 1 < |c| && c[r + 1] > j { EndBounds(c, r + 1, j); }
  }

  lemma {:induction false} EndIs(c: seq<nat>, r: nat, j: nat, e: nat)
    requires r < e <= |c|
    requires e == |c| || c[e] <= j
    requires forall k :: r < k < e ==> c[k] > j
    ensures End(c, r, j) == e
    decreases e - r
  {
    if r + 1 < e { EndIs(c, r + 1, j, e); }
  }

  /** Fewer columns give longer runs. */
  lemma Nested(c: seq<nat>, r: nat, i: nat, j: nat)
    requires r < |c| && i <= j
    ensures Start(c, r, i) <= Start(c, r, j) && End(c, r, j) <= End(c, r, i)
  {
    StartBounds(c, r, i);
    StartBounds(c, r, j);
    EndBounds(c, r, i);
    EndBounds(c, r, j);
  }

  /** Rows of one run have the same start and end. */
  lemma SameRun(c: seq<nat>, r: nat, q: nat, j: nat)
    requires r < |c| && Start(c, r, j) <= q < End(c, r, j)
    ensures Start(c, q, j) == Start(c, r, j) && End(c, q, j) == End(c, r, j)
  {
    StartBounds(c, r, j);
    EndBounds(c, r, j);
    assert forall k :: Start(c, r, j) < k < End(c, r, j) ==> c[k] > j;
    StartIs(c, q, j, Start(c, r, j));
    EndIs(c, q, j, End(c, r, j));
  }

  /** An open run is the last one; a closed one ended before the last row. */
  lemma OpenEnd(c: seq<nat>, r: nat, j: nat)
    requires r < |c|
    ensures Open(c, r, j) <==> End(c, r, j) == |c|
    ensures Open(c, r, j) ==> Start(c, r, j) == Start(c, |c| - 1, j)
  {
    StartBounds(c, |c| - 1, j);
    EndBounds(c, r, j);
    if Open(c, r, j) {
      EndIs(c, r, j, |c|);
      SameRun(c, r, |c| - 1, j);
    }
  }

  /** The next row extends the open runs on the columns before its change position and no other. */
  lemma Extend(c: seq<nat>, x: nat, r: nat, j: nat)
    requires r < |c|
    ensures Start(c + [x], r, j) == Start(c, r, j)
    ensures End(c + [x], r, j) == if End(c, r, j) == |c| && x > j then |c| + 1 else End(c, r, j)
    ensures Open(c + [x], r, j) <==> Open(c, r, j) && x > j
  {
    var d := c + [x];
    StartBounds(c, r, j);
    StartIs(d, r, j, Start(c, r, j));
    EndBounds(c, r, j);
    EndIs(d, r, j, if End(c, r, j) == |c| && x > j then |c| + 1 else End(c, r, j));
    OpenEnd(c, r, j);
    OpenEnd(d, r, j);
  }

  lemma {:induction false} RunsExtend(c: seq<nat>, x: nat, r: nat, j: nat)
    requires r < |c|
    ensures Runs(c + [x], r, j) == Runs(c, r, j)
  {
    if r > 0 { RunsExtend(c, x, r - 1, j); }
  }

  /** What the three statistics of the newly scanned row are. */
  lemma NewRow(c: seq<nat>, x: nat, j: nat)
    requires |c| > 0
    ensures var d := c + [x]; var m := |c|;
            && End(d, m, j) == m + 1
            && Start(d, m, j) == (if x <= j then m else Start(c, m - 1, j))
            && Runs(d, m, j) == Runs(c, m - 1, j) + (if x <= j then 1 else 0)
  {
    Extend(c, x, |c| - 1, j);
    RunsExtend(c, x, |c| - 1, j);
  }

  // ---- Runs are what the definitions count ----

  /** Column by column, an earlier row agrees with row r exactly when it is in r's run. */
  lemma {:induction false} EarlierRow(rows: seq<Row>, nCol: nat, c: seq<nat>, i: nat, r: nat, j: nat)
    requires IsScan(rows, nCol) && nCol > 0 && c == Changes(rows, nCol)
    requires i <= r < |rows| && j < nCol
    ensures Start(c, r, j) <= i ==> Lead(rows[i], j) == Lead(rows[r], j)
    ensures i < Start(c, r, j) ==> Lex.Less(Lead(rows[i], j), Lead(rows[r], j))
    decreases r
  {
    if i < r {
      EarlierRow(rows, nCol, c, i, r - 1, j);
      assert c[r] == ChangeOf(rows, nCol, r);
      Lex.PrefixOrder(rows[r - 1], rows[r], j + 1);
      if c[r] <= j && i < Start(c, r - 1, j) {
        Lex.Transitive(Lead(rows[i], j), Lead(rows[r - 1], j), Lead(rows[r], j));
      }
    }
  }

  /** For any two rows: equal leading columns mean the same run, and smaller ones an earlier run. */
  lemma RowOrder(rows: seq<Row>, nCol: nat, c: seq<nat>, i: nat, r: nat, j: nat)
    requires IsScan(rows, nCol) && nCol > 0 && c == Changes(rows, nCol)
    requires i < |rows| && r < |rows| && j < nCol
    ensures Lead(rows[i], j) == Lead(rows[r], j) <==> Start(c, r, j) <= i < End(c, r, j)
    ensures Lex.Less(Lead(rows[i], j), Lead(rows[r], j)) <==> i < Start(c, r, j)
  {
    var a, b := Lead(rows[i], j), Lead(rows[r], j);
    Lex.Irreflexive(a);
    if i <= r {
      EarlierRow(rows, nCol, c, i, r, j);
    } else {
      EarlierRow(rows, nCol, c, r, i, j);
      if Lex.Less(b, a) { Lex.Asymmetric(b, a); }
      StartBounds(c, i, j);
      EndBounds(c, r, j);
    }
  }

  ghost function Interval(lo: int, hi: int): (s: set<int>)
    requires lo <= hi
    ensures forall i :: i in s <==> lo <= i < hi
    ensures |s| == hi - lo
    decreases hi - lo
  {
    if lo == hi then {} else Interval(lo, hi - 1) + {hi - 1}
  }

  lemma {:induction false} LeadsMembers(rows: seq<Row>, nCol: nat, n: nat, j: nat)
    requires IsScan(rows, nCol) && n <= |rows| && j < nCol
    ensures forall p :: p in LeadsBefore(rows, nCol, n, j) <==> exists i :: 0 <= i < n && p == Lead(rows[i], j)
  {
    if n > 0 {
      LeadsMembers(rows, nCol, n - 1, j);
      var ps, qs := LeadsBefore(rows, nCol, n - 1, j), LeadsBefore(rows, nCol, n, j);
      forall p ensures p in qs <==> exists i :: 0 <= i < n && p == Lead(rows[i], j) {
        assert p in qs <==> p in ps || p == Lead(rows[n - 1], j);
      }
    }
  }

  /** Row r brings a new value of columns 0..j exactly when its change position is at most j. */
  lemma NewLead(rows: seq<Row>, nCol: nat, r: nat, j: nat)
    requires IsScan(rows, nCol) && 0 < r < |rows| && j < nCol
    ensures Lead(rows[r], j) in LeadsBefore(rows, nCol, r, j) <==> Changes(rows, nCol)[r] > j
  {
    var c := Changes(rows, nCol);
    LeadsMembers(rows, nCol, r, j);
    if c[r] > j {
      RowOrder(rows, nCol, c, r - 1, r, j);
    } else {
      forall i | 0 <= i < r ensures Lead(rows[i], j) != Lead(rows[r], j) {
        RowOrder(rows, nCol, c, i, r, j);
      }
    }
  }

  lemma {:induction false} LeadsSize(rows: seq<Row>, nCol: nat, r: nat, j: nat)
    requires IsScan(rows, nCol) && r < |rows| && j < nCol
    ensures |LeadsBefore(rows, nCol, r + 1, j)| == Runs(Changes(rows, nCol), r, j) + 1
    decreases r
  {
    var ps, p := LeadsBefore(rows, nCol, r, j), Lead(rows[r], j);
    assert LeadsBefore(rows, nCol, r + 1, j) == ps + {p};
    if r == 0 {
      assert ps == {};
    } else {
      LeadsSize(rows, nCol, r - 1, j);
      NewLead(rows, nCol, r, j);
      if p in ps { assert ps + {p} == ps; }
    }
  }

  lemma {:induction false} RunsBefore(c: seq<nat>, r: nat, j: nat)
    requires r < |c|
    ensures var s := Start(c, r, j); Runs(c, r, j) == if s == 0 then 0 else Runs(c, s - 1, j) + 1
  {
    if r > 0 && c[r] > j { RunsBefore(c, r - 1, j); }
  }

  lemma LesserLeads(rows: seq<Row>, nCol: nat, r: nat, j: nat)
    requires IsScan(rows, nCol) && r < |rows| && j < nCol
    ensures LesserPrefixes(rows, nCol, r, j)
         == LeadsBefore(rows, nCol, Start(Changes(rows, nCol), r, j), j)
  {
    var s := Start(Changes(rows, nCol), r, j);
    forall i | 0 <= i < |rows| ensures Lex.Less(Lead(rows[i], j), Lead(rows[r], j)) <==> i < s {
      RowOrder(rows, nCol, Changes(rows, nCol), i, r, j);
    }
    LeadsMembers(rows, nCol, s, j);
    LeadsMembers(rows, nCol, |rows|, j);
    var ps, qs := LesserPrefixes(rows, nCol, r, j), LeadsBefore(rows, nCol, s, j);
    forall p ensures p in ps <==> p in qs {
      if p in ps {
        var i :| 0 <= i < |rows| && p == Lead(rows[i], j);
        assert i < s;
      }
      if p in qs {
        var i :| 0 <= i < s && p == Lead(rows[i], j);
        assert i < |rows|;
      }
    }
  }

  lemma EqualCount(rows: seq<Row>, nCol: nat, r: nat, j: nat)
    requires IsScan(rows, nCol) && r < |rows| && j < nCol
    ensures |EqualRows(rows, nCol, r, j)| == Count(Changes(rows, nCol), r, j)
  {
    var c := Changes(rows, nCol);
    forall i | 0 <= i < |rows| ensures i in EqualRows(rows, nCol, r, j) <==> Start(c, r, j) <= i < End(c, r, j) {
      RowOrder(rows, nCol, c, i, r, j);
    }
    assert EqualRows(rows, nCol, r, j) == Interval(Start(c, r, j), End(c, r, j));
  }

  lemma LesserCount(rows: seq<Row>, nCol: nat, r: nat, j: nat)
    requires IsScan(rows, nCol) && r < |rows| && j < nCol
    ensures |LesserRows(rows, nCol, r, j)| == Start(Changes(rows, nCol), r, j)
  {
    var c := Changes(rows, nCol);
    forall i | 0 <= i < |rows| ensures i in LesserRows(rows, nCol, r, j) <==> i < Start(c, r, j) {
      RowOrder(rows, nCol, c, i, r, j);
    }
    assert LesserRows(rows, nCol, r, j) == Interval(0, Start(c, r, j));
  }

  lemma LeadsCount(rows: seq<Row>, nCol: nat, r: nat, j: nat)
    requires IsScan(rows, nCol) && r < |rows| && j < nCol
    ensures |LeadsBefore(rows, nCol, Start(Changes(rows, nCol), r, j), j)| == Runs(Changes(rows, nCol), r, j)
  {
    RunsBefore(Changes(rows, nCol), r, j);
    var s := Start(Changes(rows, nCol), r, j);
    if s > 0 { LeadsSize(rows, nCol, s - 1, j); }
  }

  /** The three statistics of a row, counted from change positions, are the counts of the definitions. */
  lemma StatisticsFromChanges(rows: seq<Row>, nCol: nat, r: nat, j: nat)
    requires IsScan(rows, nCol) && r < |rows| && j < nCol
    ensures |EqualRows(rows, nCol, r, j)| == Count(Changes(rows, nCol), r, j)
    ensures |LesserRows(rows, nCol, r, j)| == Start(Changes(rows, nCol), r, j)
    ensures |LesserPrefixes(rows, nCol, r, j)| == Runs(Changes(rows, nCol), r, j)
  {
    EqualCount(rows, nCol, r, j);
    LesserCount(rows, nCol, r, j);
    LesserLeads(rows, nCol, r, j);
    LeadsCount(rows, nCol, r, j);
  }
}
