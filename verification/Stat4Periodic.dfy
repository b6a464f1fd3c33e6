/** Which rows become periodic samples: every p-th one, and none of them is ever thrown out. */
module Stat4Periodic {
  import opened Division
  import opened Scan
  import opened Stat4
  import opened Stat4Invariant
  import opened Stat4Theorem

  predicate Divides(q: nat, n: nat)
    requires q > 0
  {
    n % q == 0
  }

  /** The last row of every q rows. */
  ghost function EveryNth(q: nat, n: nat): set<nat>
    requires q > 0
  {
    set r: nat {:trigger Divides(q, r + 1)} | r < n && Divides(q, r + 1)
  }

  /** The rows of the periodic samples. */
  ghost function PeriodicRows(a: seq<Sample>): set<nat> {
    set s | s in a && s.isPSample && |s.anLt| > 0 :: RowOf(s)
  }

  // ---- The period ----

  lemma MulLess(a: nat, b: nat, d: nat)
    requires a * d < b * d
    ensures a < b
  {
    if b <= a { MulMono(d, b, a); }
  }

  lemma OnePeriod(q: nat, r: nat, nEst: nat, mxSample: nat)
    requires IsPeriod(q, nEst, mxSample) && IsPeriod(r, nEst, mxSample)
    ensures q == r
  {
    MulLess(q - 1, r, mxSample / 3 + 1);
    MulLess(r - 1, q, mxSample / 3 + 1);
  }

  /** From n to n + 1 the quotient grows exactly at a multiple. */
  lemma GrowsAtMultiple(n: nat, q: nat, k: nat, r: nat)
    requires q > 0 && n + 1 == k * q + r && r < q
    ensures n / q != (n + 1) / q <==> r == 0
  {
    DivModUnique(n + 1, q, k, r);
    if r == 0 {
      MulLess(0, k, q);
      assert (k - 1) * q == k * q - q;
      DivModUnique(n, q, k - 1, q - 1);
    } else {
      DivModUnique(n, q, k, r - 1);
    }
  }

  /** A row is periodic if with it another q rows are complete. */
  lemma PeriodicAt(n: nat, q: nat)
    requires q > 0
    ensures IsPeriodic(n, q) <==> (n + 1) % q == 0
  {
    QuotientIsDivision(n, q);
    QuotientIsDivision(n + 1, q);
    GrowsAtMultiple(n, q, (n + 1) / q, (n + 1) % q);
  }

  // ---- What a step does to the periodic samples ----

  /** Samples that are the same but for their counts and columns. */
  predicate SameRows(a: seq<Sample>, b: seq<Sample>) {
    |a| == |b| && forall k :: 0 <= k < |a| ==> a[k].isPSample == b[k].isPSample && a[k].anLt == b[k].anLt
  }

  lemma SameRowsPeriodic(a: seq<Sample>, b: seq<Sample>)
    requires SameRows(a, b)
    ensures PeriodicRows(a) == PeriodicRows(b)
  {
    Within(a, b);
    Within(b, a);
  }

  lemma Within(a: seq<Sample>, b: seq<Sample>)
    requires SameRows(a, b)
    ensures PeriodicRows(a) <= PeriodicRows(b)
  {
    forall r | r in PeriodicRows(a)
      ensures r in PeriodicRows(b)
    {
      var k :| 0 <= k < |a| && a[k].isPSample && |a[k].anLt| > 0 && RowOf(a[k]) == r;
      assert b[k] in b && RowOf(b[k]) == r;
    }
  }

  lemma WithoutPeriodic(a: seq<Sample>, m: nat)
    requires m < |a| && !a[m].isPSample
    ensures PeriodicRows(Without(a, m)) == PeriodicRows(a)
  {
    var b := Without(a, m);
    forall s | s in a && s.isPSample
      ensures s in b
    {
      var k :| 0 <= k < |a| && a[k] == s;
      assert b[if k < m then k else k - 1] == s;
    }
  }

  lemma SnocPeriodic(a: seq<Sample>, s: Sample)
    requires |s.anLt| > 0
    ensures PeriodicRows(a + [s]) == PeriodicRows(a) + if s.isPSample then {RowOf(s)} else {}
  {
    assert s in a + [s];
  }

  /** Only a sample that is not periodic makes room for a new one. */
  lemma AppendPeriodic(p: Accum, s: Sample, n: nat)
    requires IsAccum(p) && CanEvict(p) && IsSample(s, p.nCol) && n <= p.nCol
    ensures PeriodicRows(Append(p, s, n).a) == PeriodicRows(p.a) + if s.isPSample then {RowOf(s)} else {}
  {
    if |p.a| >= p.mxSample { WithoutPeriodic(p.a, p.iMin); }
    SnocPeriodic(Kept(p), Zeroed(s, n));
  }

  lemma InsertPeriodic(p: Accum, s: Sample, n: nat)
    requires IsAccum(p) && CanEvict(p) && IsSample(s, p.nCol) && n <= p.nCol
    ensures PeriodicRows(Insert(p, s, n).a) == PeriodicRows(p.a) + if s.isPSample then {RowOf(s)} else {}
  {
    var p1 := Bounded(p, n);
    if !s.isPSample && PeriodicOpen(p.a, p.nCol, s.iCol) { return; }
    var k := if s.isPSample then -1 else Candidate(p.a, p.nCol, s.iCol, 0);
    if k >= 0 {
      SameRowsPeriodic(p.a, Upgrade(p1, k, s.iCol, s.anEq[s.iCol]).a);
    } else {
      AppendPeriodic(p1, s, n);
    }
  }

  lemma PushBestPeriodic(p: Accum, i: nat)
    requires Sound(p, p.nRow) && i < p.nCol
    ensures PeriodicRows(PushBest(p, i).a) == PeriodicRows(p.a)
  {
    InsertPeriodic(Offered(p, i), Offer(p, i), i);
  }

  lemma {:induction false} PushDownPeriodic(p: Accum, i: int, lo: nat)
    requires Sound(p, p.nRow) && i < p.nCol
    ensures PeriodicRows(PushDown(p, i, lo).a) == PeriodicRows(p.a)
    decreases i
  {
    if i >= lo {
      PushBestPeriodic(p, i);
      PushDownStep(p, i, lo);
      PushDownPeriodic(PushBest(p, i), i - 1, lo);
    }
  }

  lemma FlushPeriodic(p: Accum, lo: nat)
    requires Sound(p, p.nRow)
    ensures PeriodicRows(PushPrevious(p, lo).a) == PeriodicRows(p.a)
  {
    var q := PushDown(p, p.nCol - 2, lo);
    PushDownPeriodic(p, p.nCol - 2, lo);
    SameRowsPeriodic(q.a, FillAll(q, lo).a);
  }

  /** The row counted in is row nRow-1, and becomes a sample if it is a periodic one. */
  lemma TakePeriodic(p: Accum)
    requires IsAccum(p) && CanEvict(p) && p.nRow > 0 && p.nPSample > 0 && RowOf(p.current) == p.nRow - 1
    ensures PeriodicRows(PushPeriodic(p).a)
         == PeriodicRows(p.a) + if p.nRow % p.nPSample == 0 then {p.nRow - 1} else {}
  {
    PeriodicAt(p.nRow - 1, p.nPSample);
    if p.nRow % p.nPSample == 0 { InsertPeriodic(p, p.current.(isPSample := true, iCol := 0), p.nCol - 1); }
  }

  lemma ArrivedPeriodic(p: Accum, x: nat, id: int)
    requires Ready(p) && x < p.nCol
    ensures PeriodicRows(Arrived(p, x, id).a) == PeriodicRows(p.a)
    ensures RowOf(Arrived(p, x, id).current) == p.nRow && Arrived(p, x, id).nPSample == p.nPSample
  {
    FlushPeriodic(p, x);
  }

  lemma PushPeriodicRows(p: Accum, x: nat, id: int)
    requires Ready(p) && p.nRow < p.nEst && x < p.nCol
    ensures PeriodicRows(StatPush(p, x, id).a)
         == PeriodicRows(p.a) + if (p.nRow + 1) % p.nPSample == 0 then {p.nRow} else {}
    ensures StatPush(p, x, id).nPSample == p.nPSample
  {
    ArrivedPeriodic(p, x, id);
    TakePeriodic(Arrived(p, x, id));
    PushPeriodicReady(Arrived(p, x, id));
  }

  // ---- Whole scans ----

  lemma EveryNthStep(q: nat, n: nat)
    requires q > 0
    ensures EveryNth(q, n + 1) == EveryNth(q, n) + if (n + 1) % q == 0 then {n} else {}
  {
  }

  lemma {:induction false} RunPeriodic(p: Accum, c: seq<nat>, ids: seq<int>)
    requires Ready(p) && p.nRow == 0 && p.a == [] && |c| == |ids| <= p.nEst && IsChanges(c, p.nCol)
    ensures Run(p, c, ids).nPSample == p.nPSample && PeriodicRows(Run(p, c, ids).a) == EveryNth(p.nPSample, |c|)
    decreases |c|
  {
    if c != [] {
      var n := |c| - 1;
      RunPeriodic(p, c[..n], ids[..n]);
      RunLast(p, c, ids);
      PushPeriodicRows(Run(p, c[..n], ids[..n]), c[n], ids[n]);
      EveryNthStep(p.nPSample, n);
    }
  }

  /**
   When the scan is over, the periodic samples are the last rows of every q rows, where q is the period; all of them
   have been kept.
   */
  lemma PeriodicExact(rows: seq<Row>, ids: seq<int>, nEst: nat, nCol: nat, mxSample: nat, seed: nat, q: nat)
    requires IsScan(rows, nCol) && nCol > 0 && mxSample > 0 && |rows| == |ids| <= nEst
    requires IsPeriod(q, nEst, mxSample)
    ensures var p := Run(Init(nEst, nCol, mxSample, seed), Changes(rows, nCol), ids);
            PeriodicRows(PushPrevious(p, 0).a) == EveryNth(q, |rows|)
  {
    var start := Init(nEst, nCol, mxSample, seed);
    PeriodIs(nEst, mxSample);
    OnePeriod(q, start.nPSample, nEst, mxSample);
    RunPeriodic(start, Changes(rows, nCol), ids);
    FlushPeriodic(Run(start, Changes(rows, nCol), ids), 0);
  }
}
