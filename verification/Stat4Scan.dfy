/** A whole scan by the accumulator: stat_init, one stat_push for each row, and the flush of stat_get. */
module Stat4Scan {
  import opened Scan
  import opened Stat4
  import opened Stat4Invariant
  import opened Stat4Theorem
  import opened Stat4Periodic
  import opened Stat4Frequent
  import opened Stat4Accum

  /**
   After all rows have been pushed and the last runs flushed, every sample of the accumulator is exact,
       the periodic ones
   are the last rows of every q rows, and no prefix is missed that is more frequent than what a sample was chosen for.
   */
  method Analyze(rows: seq<Row>, ids: seq<int>, nEst: nat, nCol: nat, mxSample: nat, seed: nat) returns (p: StatAccum)
    requires IsScan(rows, nCol) && nCol > 0 && mxSample > 0 && 0 < |rows| == |ids| <= nEst
    ensures fresh(p) && p.Valid() && p.nSample <= mxSample && NumPeriodic(p.a[..p.nSample]) <= mxSample / 3
    ensures var a := p.a[..p.nSample];
            AllExact(rows, ids, nCol, a) && AreSamples(a, nCol) && Ascending(nCol, a)
    ensures forall q: nat :: IsPeriod(q, nEst, mxSample) ==>
              PeriodicRows(p.a[..p.nSample]) == EveryNth(q, |rows|)
    ensures forall r: nat, j: nat :: r < |rows| && j < nCol - 1 ==>
        Sampled(rows, nCol, p.a[..p.nSample], mxSample, r, j)
  {
    p := new StatAccum(nCol, nEst, mxSample, seed);
    PushAll(p, p.State(), rows, ids);
    p.SamplePushPrevious(0);
    SamplesAreExact(rows, ids, nEst, nCol, mxSample, seed);
    forall q: nat | IsPeriod(q, nEst, mxSample) { PeriodicExact(rows, ids, nEst, nCol, mxSample, seed, q); }
    forall r: nat, j: nat | r < |rows| && j < nCol - 1 { NoneMissed(rows, ids, nEst, nCol, mxSample, seed, r, j); }
  }

  method PushAll(p: StatAccum, ghost start: Accum, rows: seq<Row>, ids: seq<int>)
    requires p.Valid() && p.State() == start && Ready(start) && start.nRow == 0
    requires IsScan(rows, start.nCol) && |rows| == |ids| <= start.nEst
    modifies p, p.a, p.aBest
    ensures p.Valid() && p.State() == Run(start, Changes(rows, start.nCol), ids)
  {
    ghost var c := Changes(rows, start.nCol);
    var k := 0;
    while k < |rows|
      invariant k <= |rows| && p.Valid() && p.State() == Run(start, c[..k], ids[..k])
    {
      PushRow(p, start, c, ids, k, ChangeOf(rows, p.nCol, k));
      k := k + 1;
    }
    All(c, |rows|);
    All(ids, |rows|);
  }

  lemma All<T>(s: seq<T>, n: nat)
    requires n == |s|
    ensures s[..n] == s
  {
  }

  method PushRow(p: StatAccum, ghost start: Accum, ghost c: seq<nat>, ids: seq<int>, k: nat, iChng: nat)
    requires Ready(start) && k < |c| == |ids| && start.nRow + |c| <= start.nEst && IsChanges(c, start.nCol)
    requires p.Valid() && p.State() == Run(start, c[..k], ids[..k]) && iChng == c[k]
    modifies p, p.a, p.aBest
    ensures p.Valid() && p.State() == Run(start, c[..k + 1], ids[..k + 1])
  {
    RunNext(start, c, ids, k);
    p.Push(iChng, ids[k]);
  }

  lemma RunNext(p: Accum, c: seq<nat>, ids: seq<int>, k: nat)
    requires Ready(p) && k < |c| == |ids| && p.nRow + |c| <= p.nEst && IsChanges(c, p.nCol)
    ensures var q := Run(p, c[..k], ids[..k]);
            && q.nRow == p.nRow + k && q.nEst == p.nEst && q.nCol == p.nCol && c[k] < p.nCol
            && Run(p, c[..k + 1], ids[..k + 1]) == StatPush(q, c[k], ids[k])
  {
    TakeTake(c, k);
    TakeTake(ids, k);
    RunLast(p, c[..k + 1], ids[..k + 1]);
  }
}
