/** Whole scans: the sampler's invariant holds after every row, and the final flush makes every count exact. */
module Stat4Theorem {
  import opened Division
  import Lex
  import opened Scan
  import opened Stat4
  import opened Stat4Invariant

  // ---- A flush ----

  ghost predicate CanFlush(h: History, p: Accum, i: int) {
    Sound(p, p.nRow) && i < p.nCol - 1 && Flushed(h, p, i)
  }

  lemma PushBestCan(h: History, p: Accum, i: nat)
    requires CanFlush(h, p, i)
    ensures CanFlush(h, PushBest(p, i), i - 1)
  {
    PushBestReady(p, i);
    PushBestOk(h, p, i);
  }

  lemma {:induction false} PushDownOk(h: History, p: Accum, i: int, lo: nat)
    requires CanFlush(h, p, i)
    ensures CanFlush(h, PushDown(p, i, lo), if i < lo then i else lo - 1)
    decreases i
  {
    if i >= lo {
      PushBestCan(h, p, i);
      PushDownStep(p, i, lo);
      PushDownOk(h, PushBest(p, i), i - 1, lo);
    }
  }

  /** All counts of column lo and later are known. */
  ghost predicate Settled(h: History, nCol: nat, s: Sample, lo: nat)
    requires IsHistory(h, nCol)
  {
    IsKept(h, nCol, s, lo - 1) && forall j :: lo <= j < nCol ==> s.anEq[j] > 0
  }

  ghost predicate AllSettled(h: History, nCol: nat, a: seq<Sample>, lo: nat)
    requires IsHistory(h, nCol)
  {
    forall k {:trigger Settled(h, nCol, a[k], lo)} :: 0 <= k < |a| ==> Settled(h, nCol, a[k], lo)
  }

  lemma FilledSettled(h: History, nCol: nat, s: Sample, cur: Sample, lo: nat)
    requires IsHistory(h, nCol) && IsKept(h, nCol, s, lo - 1) && IsSample(cur, nCol)
    requires forall j :: 0 <= j < nCol ==> cur.anEq[j] == Count(h.c, |h.c| - 1, j)
    ensures Settled(h, nCol, Filled(s, cur, lo), lo)
  {
    var t := Filled(s, cur, lo);
    forall j | 0 <= j < nCol && Open(h.c, RowOf(s), j)
      ensures Count(h.c, |h.c| - 1, j) == Count(h.c, RowOf(s), j)
    {
      OpenEnd(h.c, RowOf(s), j);
      OpenEnd(h.c, |h.c| - 1, j);
    }
  }

  /** Filling in does not touch what decides between samples. */
  lemma FilledScore(nCol: nat, s: Sample, cur: Sample, lo: nat)
    requires IsSample(s, nCol) && IsSample(cur, nCol) && Known(nCol, s) && !s.isPSample
    ensures Score(Filled(s, cur, lo)) == Score(s)
  {
    assert forall j :: s.iCol <= j < nCol ==> Filled(s, cur, lo).anEq[j] == s.anEq[j];
    assert Filled(s, cur, lo).anEq[s.iCol + 1..] == s.anEq[s.iCol + 1..];
  }

  lemma FilledMin(h: History, p: Accum, lo: nat)
    requires Samples(h, p, lo - 1) && IsSample(p.current, p.nCol)
    ensures MinOk(FillAll(p, lo))
  {
    var q := FillAll(p, lo);
    forall k | 0 <= k < |p.a| && !p.a[k].isPSample ensures Score(q.a[k]) == Score(p.a[k]) {
      assert IsKept(h, p.nCol, p.a[k], lo - 1);
      FilledScore(p.nCol, p.a[k], p.current, lo);
    }
    if |p.a| == p.mxSample {
      forall k | 0 <= k < |q.a| && !q.a[k].isPSample ensures !Better(q.a[q.iMin], q.a[k]) {
        assert !Better(p.a[p.iMin], p.a[k]);
      }
    }
  }

  lemma FilledTable(h: History, p: Accum, lo: nat)
    requires Samples(h, p, lo - 1) && CurrentOk(h, p.nCol, p.current)
    ensures var q := FillAll(p, lo);
            && Table(h, q.nCol, q.a, q.nMaxEqZero, lo - 1)
            && AllSettled(h, q.nCol, q.a, lo)
  {
    var q := FillAll(p, lo);
    forall k | 0 <= k < |p.a| ensures Settled(h, p.nCol, q.a[k], lo) && RowOf(q.a[k]) == RowOf(p.a[k]) {
      assert IsKept(h, p.nCol, p.a[k], lo - 1);
      if lo < p.nMaxEqZero { FilledSettled(h, p.nCol, p.a[k], p.current, lo); }
    }
    if lo < p.nMaxEqZero {
      assert forall k, j :: 0 <= k < |q.a| && lo <= j < q.nCol ==> q.a[k].anEq[j] > 0;
    }
  }

  lemma FillOk(h: History, p: Accum, lo: nat)
    requires CanFlush(h, p, lo - 1)
    ensures var q := FillAll(p, lo);
            Mid(h, q, lo - 1) && AllSettled(h, q.nCol, q.a, lo)
  {
    FilledTable(h, p, lo);
    FilledMin(h, p, lo);
    NumPeriodicSame(p.a, FillAll(p, lo).a);
  }

  /** After the flush every count of column lo or later is known and right, and the samples are in order. */
  lemma FlushOk(h: History, p: Accum, lo: nat)
    requires Sound(p, p.nRow) && Mid(h, p, p.nCol - 2) && lo < p.nCol
    ensures var q := PushPrevious(p, lo);
            Mid(h, q, lo - 1) && AllSettled(h, q.nCol, q.a, lo)
  {
    PushDownOk(h, p, p.nCol - 2, lo);
    FillOk(h, PushDown(p, p.nCol - 2, lo), lo);
  }

  // ---- The next row ----

  function Next(h: History, x: nat, id: int): History {
    History(h.c + [x], h.ids + [id])
  }

  /** A settled sample stays right when the next row, differing first in column x, arrives. */
  lemma SettledNext(h: History, nCol: nat, s: Sample, x: nat, id: int)
    requires IsHistory(h, nCol) && Settled(h, nCol, s, x) && x < nCol
    ensures IsKept(Next(h, x, id), nCol, s, nCol - 2)
  {
    var r := RowOf(s);
    forall j | 0 <= j < nCol
      ensures Start(h.c + [x], r, j) == Start(h.c, r, j) && Runs(h.c + [x], r, j) == Runs(h.c, r, j)
      ensures s.anEq[j] != 0 ==> s.anEq[j] == Count(h.c + [x], r, j)
      ensures s.anEq[j] == 0 ==> Open(h.c + [x], r, j)
      ensures Open(h.c + [x], r, j) ==> s.anEq[j] == 0
    {
      Extend(h.c, x, r, j);
      RunsExtend(h.c, x, r, j);
      OpenEnd(h.c, r, j);
    }
  }

  lemma TableNext(h: History, nCol: nat, a: seq<Sample>, bound: nat, x: nat, id: int)
    requires IsHistory(h, nCol) && x < nCol && Table(h, nCol, a, bound, x - 1) && AllSettled(h, nCol, a, x)
    ensures Table(Next(h, x, id), nCol, a, bound, nCol - 2)
  {
    forall k | 0 <= k < |a| ensures IsKept(Next(h, x, id), nCol, a[k], nCol - 2) {
      SettledNext(h, nCol, a[k], x, id);
    }
  }

  /** The current row's counts after they have been brought up to date. */
  lemma AdvancedOk(h: History, p: Accum, x: nat, id: int, prn: nat)
    requires IsAccum(p) && IsHistory(h, p.nCol) && CurrentOk(h, p.nCol, p.current) && x < p.nCol
    ensures var q := p.(current := Advanced(p.current, x).(rowid := id, iHash := prn));
            CurrentOk(Next(h, x, id), q.nCol, q.current)
  {
    var t := Advanced(p.current, x);
    forall j | 0 <= j < p.nCol
      ensures t.anLt[j] == Start(h.c + [x], |h.c|, j) && t.anDLt[j] == Runs(h.c + [x], |h.c|, j)
      ensures t.anEq[j] == Count(h.c + [x], |h.c|, j)
    {
      NewRow(h.c, x, j);
      OpenEnd(h.c, |h.c| - 1, j);
    }
    assert |h.c| == RowOf(t) by {
      NewRow(h.c, x, p.nCol - 1);
      OneRow(h.c, p.nCol, |h.c| - 1);
    }
  }

  /** On all columns together every run is a single row. */
  lemma OneRow(c: seq<nat>, nCol: nat, r: nat)
    requires IsChanges(c, nCol) && nCol > 0 && r < |c|
    ensures Start(c, r, nCol - 1) == r && End(c, r, nCol - 1) == r + 1
  {
  }

  /** If the new row extends the run of column i+1 that the old best row ends, it takes its place. */
  lemma ExtensionWins(h: History, nCol: nat, best: Sample, cur: Sample, i: nat, x: nat)
    requires IsHistory(h, nCol) && BestOk2(h, nCol, best, i)
    requires i + 1 < x < nCol && RowOf(best) == |h.c| - 1
    requires IsSample(cur, nCol) && cur.anEq[i + 1] == Count(h.c + [x], |h.c|, i + 1)
    ensures BetterPost(cur.(iCol := i), best)
  {
    NewRow(h.c, x, i + 1);
    OpenEnd(h.c, |h.c| - 1, i + 1);
    assert cur.anEq[i + 1] == best.anEq[i + 1] + 1;
    Lex.LessAt(Tail(best), Tail(cur.(iCol := i)), 0);
  }

  ghost predicate BestOk2(h: History, nCol: nat, s: Sample, i: nat)
    requires IsHistory(h, nCol)
  {
    i + 1 < nCol && BestOk(h, nCol, s, i)
  }

  /** A best row that stays: its counts are still those of the rows so far. */
  lemma BestStays(h: History, nCol: nat, s: Sample, i: nat, x: nat, id: int)
    requires IsHistory(h, nCol) && BestOk2(h, nCol, s, i) && i < x < nCol
    requires RowOf(s) == |h.c| - 1 ==> x == i + 1
    ensures BestOk2(Next(h, x, id), nCol, s, i)
  {
    var r := RowOf(s);
    forall j | 0 <= j < nCol
      ensures Start(h.c + [x], r, j) == Start(h.c, r, j) && Runs(h.c + [x], r, j) == Runs(h.c, r, j)
    {
      Extend(h.c, x, r, j);
      RunsExtend(h.c, x, r, j);
    }
    forall j | i < j < nCol ensures End(h.c + [x], r, j) == End(h.c, r, j) == r + 1 {
      Nested(h.c, r, i + 1, j);
      Extend(h.c, x, r, j);
    }
    Extend(h.c, x, r, i);
  }

  /** The new row as a best row of its own runs. */
  lemma BestIsNew(h: History, p: Accum, i: nat)
    requires IsAccum(p) && IsHistory(h, p.nCol) && CurrentOk(h, p.nCol, p.current) && i + 1 < p.nCol
    ensures BestOk2(h, p.nCol, p.current.(iCol := i), i)
  {
  }

  lemma ImprovedOk(h: History, nCol: nat, p: Accum, best: Sample, i: nat, x: nat, id: int)
    requires IsHistory(h, nCol) && i + 1 < nCol && x < nCol && p.nCol == nCol
    requires i < x ==> BestOk2(h, nCol, best, i)
    requires best.iCol < |best.anEq|
    requires IsAccum(p) && CurrentOk(Next(h, x, id), p.nCol, p.current)
    ensures BestOk2(Next(h, x, id), nCol, Improved(best, p.current, i, x), i)
  {
    if i < x && !BetterPost(p.current.(iCol := i), best) {
      if RowOf(best) == |h.c| - 1 && i + 1 < x {
        ExtensionWins(h, nCol, best, p.current, i, x);
      }
      BestStays(h, nCol, best, i, x, id);
    } else {
      BestIsNew(Next(h, x, id), p, i);
    }
  }

  /** The invariant between two calls. */
  ghost predicate Rested(h: History, p: Accum) {
    Ready(p) && p.nRow == |h.c| && Mid(h, p, p.nCol - 2)
  }

  /** The new row is current and counted in, but aBest still describes the rows before it. */
  ghost predicate Arriving(h: History, p: Accum, x: nat) {
    && IsAccum(p) && IsHistory(h, p.nCol) && |h.c| == p.nRow <= p.nEst && x < p.nCol
    && Sound(p, p.nRow - 1) && RowCounter(p.current, p.nRow)
    && Samples(h, p, p.nCol - 2) && CurrentOk(h, p.nCol, p.current)
  }

  lemma NextSamples(h: History, p: Accum, q: Accum, x: nat, id: int)
    requires Samples(h, p, x - 1) && x < p.nCol && AllSettled(h, p.nCol, p.a, x)
    requires IsAccum(q) && q == p.(nRow := q.nRow, iPrn := q.iPrn, current := q.current)
    ensures Samples(Next(h, x, id), q, q.nCol - 2)
  {
    TableNext(h, p.nCol, p.a, p.nMaxEqZero, x, id);
  }

  /** Every sample was taken from an earlier row than the current one. */
  ghost predicate FromEarlierRows(h: History, nCol: nat, a: seq<Sample>) {
    forall t :: t in a ==> IsSample(t, nCol) && nCol > 0 && RowOf(t) < |h.c| - 1
  }

  lemma ArrivedOk(h: History, p: Accum, x: nat, id: int)
    requires Rested(h, p) && x < p.nCol && p.nRow < p.nEst
    ensures var q := Arrived(p, x, id);
            && Arriving(Next(h, x, id), q, x) && AllBest(h, q.nCol, q.aBest)
            && FromEarlierRows(Next(h, x, id), q.nCol, q.a)
  {
    FlushOk(h, p, x);
    var f, q := PushPrevious(p, x), Arrived(p, x, id);
    AdvancedOk(h, f, x, id, NextPrn(f.iPrn));
    NextSamples(h, f, q, x, id);
  }

  lemma FirstRowOk(p: Accum, id: int)
    requires Ready(p) && p.nRow == 0 < p.nEst && p.a == []
    requires forall j :: 0 <= j < p.nCol ==> p.current.anLt[j] == 0 && p.current.anDLt[j] == 0
    ensures Arriving(History([0], [id]), Arrived(p, 0, id), 0) && Arrived(p, 0, id).a == []
  {
  }

  /** The row as a periodic sample: all counts but the last are left open. */
  lemma PeriodicKept(h: History, p: Accum, x: nat)
    requires Arriving(h, p, x)
    ensures var s := p.current.(isPSample := true, iCol := 0);
            && IsKept(h, p.nCol, Zeroed(s, p.nCol - 1), p.nCol - 2)
            && Zeroed(s, p.nCol - 1).anEq[p.nCol - 1] > 0
  {
    var s := p.current.(isPSample := true, iCol := 0);
    var z := Zeroed(s, p.nCol - 1);
    assert z.anEq[p.nCol - 1] == p.current.anEq[p.nCol - 1];
  }

  lemma PeriodicInserted(h: History, p: Accum, x: nat)
    requires Arriving(h, p, x) && FromEarlierRows(h, p.nCol, p.a)
    requires IsPeriodic(p.nRow - 1, p.nPSample)
    ensures var m := Bounded(p, p.nCol - 1);
            var q := FindNewMin(Append(m, p.current.(isPSample := true, iCol := 0), p.nCol - 1));
            Samples(h, q, p.nCol - 2) && q == m.(a := q.a, iMin := q.iMin)
  {
    PeriodicKept(h, p, x);
    PeriodicFew(p.nEst, p.mxSample, p.nRow);
    QuotientStep(p.nRow - 1, p.nPSample);
    AppendOk(h, Bounded(p, p.nCol - 1), p.current.(isPSample := true, iCol := 0), p.nCol - 1, p.nCol - 2);
  }

  lemma SamplesOnly(h: History, p: Accum, cur: Sample, i: int)
    requires Samples(h, p, i) && IsSample(cur, p.nCol)
    ensures Samples(h, p.(current := cur), i)
  {
  }

  lemma PeriodicCase(p: Accum)
    requires IsAccum(p) && CanEvict(p) && IsPeriodic(p.current.anLt[p.nCol - 1], p.nPSample)
    ensures PushPeriodic(p)
      == FindNewMin(Append(Bounded(p, p.nCol - 1), p.current.(isPSample := true, iCol := 0), p.nCol - 1))
         .(current := p.current.(iCol := 0, isPSample := false))
  {
  }

  lemma PushPeriodicOk(h: History, p: Accum, x: nat)
    requires Arriving(h, p, x) && FromEarlierRows(h, p.nCol, p.a)
    ensures var q := PushPeriodic(p);
            && Samples(h, q, q.nCol - 2) && q.nCol == p.nCol && q.aBest == p.aBest
            && CurrentOk(h, q.nCol, q.current)
  {
    if IsPeriodic(p.nRow - 1, p.nPSample) {
      var q := FindNewMin(Append(Bounded(p, p.nCol - 1), p.current.(isPSample := true, iCol := 0), p.nCol - 1));
      PeriodicInserted(h, p, x);
      PeriodicCase(p);
      SamplesOnly(h, q, p.current.(iCol := 0, isPSample := false), p.nCol - 2);
    }
  }

  lemma UpdateBestOk(h: History, p: Accum, x: nat, id: int)
    requires IsAccum(p) && IsHistory(h, p.nCol) && x < p.nCol
    requires AllBest(h, p.nCol, p.aBest) && CurrentOk(Next(h, x, id), p.nCol, p.current)
    ensures var q := UpdateBest(p, x); AllBest(Next(h, x, id), q.nCol, q.aBest)
  {
    var q := UpdateBest(p, x);
    forall i | 0 <= i < p.nCol - 1 ensures BestOk(Next(h, x, id), q.nCol, q.aBest[i], i) {
      assert BestOk(h, p.nCol, p.aBest[i], i);
      ImprovedOk(h, p.nCol, p, p.aBest[i], i, x, id);
    }
  }

  lemma FirstBestOk(h: History, p: Accum)
    requires IsAccum(p) && IsHistory(h, p.nCol) && CurrentOk(h, p.nCol, p.current)
    ensures var q := UpdateBest(p, 0); AllBest(h, q.nCol, q.aBest)
  {
    var q := UpdateBest(p, 0);
    forall i | 0 <= i < p.nCol - 1 ensures BestOk(h, q.nCol, q.aBest[i], i) {
      BestIsNew(h, p, i);
    }
  }

  // ---- Whole scans ----

  /** What remains of a call once the row has been counted in: sampling it and updating aBest. */
  lemma SampledOk(h: History, p: Accum, x: nat, id: int)
    requires Arriving(Next(h, x, id), p, x) && FromEarlierRows(Next(h, x, id), p.nCol, p.a)
    requires IsHistory(h, p.nCol) && AllBest(h, p.nCol, p.aBest)
    ensures Rested(Next(h, x, id), UpdateBest(PushPeriodic(p), x))
  {
    var q := PushPeriodic(p);
    PushPeriodicReady(p);
    PushPeriodicOk(Next(h, x, id), p, x);
    UpdateBestOk(h, q, x, id);
    UpdatedOk(Next(h, x, id), q, x);
  }

  lemma UpdatedOk(h: History, p: Accum, x: nat)
    requires Ready(p) && p.nRow == |h.c| && Samples(h, p, p.nCol - 2) && CurrentOk(h, p.nCol, p.current)
    requires AllBest(h, p.nCol, UpdateBest(p, x).aBest)
    ensures Rested(h, UpdateBest(p, x))
  {
    UpdateBestReady(p, x);
  }

  lemma StatPushOk(h: History, p: Accum, x: nat, id: int)
    requires Rested(h, p) && x < p.nCol && p.nRow < p.nEst
    ensures Rested(Next(h, x, id), StatPush(p, x, id))
  {
    ArrivedOk(h, p, x, id);
    SampledOk(h, Arrived(p, x, id), x, id);
  }

  /** A new accumulator: no rows, no samples, all counts zero. */
  ghost predicate Blank(p: Accum) {
    && Ready(p) && p.nRow == 0 && p.a == []
    && (forall j :: 0 <= j < p.nCol ==> p.current.anLt[j] == 0 && p.current.anDLt[j] == 0)
  }

  lemma FirstPushOk(p: Accum, id: int)
    requires Blank(p) && p.nEst > 0
    ensures Rested(History([0], [id]), StatPush(p, 0, id))
  {
    var h, q := History([0], [id]), Arrived(p, 0, id);
    FirstRowOk(p, id);
    PushPeriodicReady(q);
    PushPeriodicOk(h, q, 0);
    FirstBestOk(h, PushPeriodic(q));
    UpdatedOk(h, PushPeriodic(q), 0);
  }

  lemma TakeTake<T>(s: seq<T>, k: nat)
    requires k < |s|
    ensures s[..k + 1][..k] == s[..k] && s[..k + 1] == s[..k] + [s[k]]
  {
  }

  lemma RunLast(p: Accum, c: seq<nat>, ids: seq<int>)
    requires Ready(p) && 0 < |c| == |ids| && p.nRow + |c| <= p.nEst && IsChanges(c, p.nCol)
    ensures var n := |c| - 1; Run(p, c, ids) == StatPush(Run(p, c[..n], ids[..n]), c[n], ids[n])
  {
  }

  lemma NextHistory(c: seq<nat>, ids: seq<int>, n: nat)
    requires |c| == |ids| == n + 1
    ensures Next(History(c[..n], ids[..n]), c[n], ids[n]) == History(c, ids)
  {
  }

  lemma FirstRun(p: Accum, c: seq<nat>, ids: seq<int>)
    requires Blank(p) && 1 == |c| == |ids| <= p.nEst && IsChanges(c, p.nCol)
    ensures Run(p, c, ids) == StatPush(p, 0, ids[0]) && History(c, ids) == History([0], [ids[0]])
  {
    assert Run(p, c[..0], ids[..0]) == p;
  }

  /** After any scan of at most the announced number of rows, the invariant holds. */
  lemma {:induction false} RunOk(p: Accum, c: seq<nat>, ids: seq<int>)
    requires Blank(p) && 0 < |c| == |ids| <= p.nEst && IsChanges(c, p.nCol)
    ensures Rested(History(c, ids), Run(p, c, ids))
    decreases |c|
  {
    var n := |c| - 1;
    if n == 0 {
      FirstRun(p, c, ids);
      FirstPushOk(p, ids[0]);
    } else {
      RunOk(p, c[..n], ids[..n]);
      RunLast(p, c, ids);
      StatPushOk(History(c[..n], ids[..n]), Run(p, c[..n], ids[..n]), c[n], ids[n]);
      NextHistory(c, ids, n);
    }
  }

  /** What stat_get reports about one sample: the rowid and statistics of one row, counted over the whole scan. */
  ghost predicate IsExact(rows: seq<Row>, ids: seq<int>, nCol: nat, s: Sample)
    requires IsScan(rows, nCol) && |ids| == |rows|
  {
    && IsSample(s, nCol) && |s.anLt| > 0 && RowOf(s) < |rows|
    && s.rowid == ids[RowOf(s)]
    && forall j :: 0 <= j < nCol ==>
      && s.anEq[j] == |EqualRows(rows, nCol, RowOf(s), j)|
      && s.anLt[j] == |LesserRows(rows, nCol, RowOf(s), j)|
      && s.anDLt[j] == |LesserPrefixes(rows, nCol, RowOf(s), j)|
  }

  lemma SettledExact(rows: seq<Row>, ids: seq<int>, nCol: nat, s: Sample)
    requires IsScan(rows, nCol) && |ids| == |rows| > 0 && nCol > 0
    requires Settled(History(Changes(rows, nCol), ids), nCol, s, 0)
    ensures IsExact(rows, ids, nCol, s)
  {
    forall j | 0 <= j < nCol
      ensures s.anEq[j] == |EqualRows(rows, nCol, RowOf(s), j)|
      ensures s.anLt[j] == |LesserRows(rows, nCol, RowOf(s), j)|
      ensures s.anDLt[j] == |LesserPrefixes(rows, nCol, RowOf(s), j)|
    {
      StatisticsFromChanges(rows, nCol, RowOf(s), j);
    }
  }

  ghost predicate AllExact(rows: seq<Row>, ids: seq<int>, nCol: nat, a: seq<Sample>)
    requires IsScan(rows, nCol) && |ids| == |rows|
  {
    forall k {:trigger IsExact(rows, ids, nCol, a[k])} :: 0 <= k < |a| ==> IsExact(rows, ids, nCol, a[k])
  }

  lemma FlushExact(rows: seq<Row>, ids: seq<int>, p: Accum)
    requires IsScan(rows, p.nCol) && |ids| == |rows| > 0 && p.nCol > 0
    requires Rested(History(Changes(rows, p.nCol), ids), p)
    ensures var a := PushPrevious(p, 0).a;
            AllExact(rows, ids, p.nCol, a) && AreSamples(a, p.nCol) && Ascending(p.nCol, a)
  {
    var h := History(Changes(rows, p.nCol), ids);
    FlushOk(h, p, 0);
    var a := PushPrevious(p, 0).a;
    forall k | 0 <= k < |a| ensures IsExact(rows, ids, p.nCol, a[k]) {
      assert Settled(h, p.nCol, a[k], 0);
      SettledExact(rows, ids, p.nCol, a[k]);
    }
  }

  /**
   The samples that ANALYZE stores: at most mxSample of them, in key order, at most a third
   periodic, and every stored count is exact over the whole scan.
   */
  lemma SamplesAreExact(rows: seq<Row>, ids: seq<int>, nEst: nat, nCol: nat, mxSample: nat, seed: nat)
    requires IsScan(rows, nCol) && nCol > 0 && mxSample > 0 && 0 < |rows| == |ids| <= nEst
    ensures var p := Run(Init(nEst, nCol, mxSample, seed), Changes(rows, nCol), ids);
            var a := PushPrevious(p, 0).a;
            && |a| <= mxSample && NumPeriodic(a) <= mxSample / 3
            && AllExact(rows, ids, nCol, a) && AreSamples(a, nCol) && Ascending(nCol, a)
  {
    var p := Run(Init(nEst, nCol, mxSample, seed), Changes(rows, nCol), ids);
    RunInit(nEst, nCol, mxSample, seed, Changes(rows, nCol), ids);
    FlushExact(rows, ids, p);
    PeriodicFew(nEst, mxSample, |rows|);
  }

  lemma RunInit(nEst: nat, nCol: nat, mxSample: nat, seed: nat, c: seq<nat>, ids: seq<int>)
    requires nCol > 0 && mxSample > 0 && 0 < |c| == |ids| <= nEst && IsChanges(c, nCol)
    ensures var p := Run(Init(nEst, nCol, mxSample, seed), c, ids);
            && Rested(History(c, ids), p)
            && p.nCol == nCol && p.mxSample == mxSample && p.nEst == nEst
  {
    RunOk(Init(nEst, nCol, mxSample, seed), c, ids);
  }
}
