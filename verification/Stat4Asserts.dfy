/** The assertions of sampleInsert and samplePushPrevious hold wherever a scan reaches them. */
module Stat4Asserts {
  import opened Division
  import opened Scan
  import opened Stat4
  import opened Stat4Invariant
  import opened Stat4Theorem

  // ---- The assertions ----

  /**
   A sample with an unknown count in the column of s, which is not periodic, has a later column and is beaten by s.
   */
  ghost predicate Beaten(p: Accum, s: Sample, k: nat)
    requires IsAccum(p) && IsSample(s, p.nCol) && k < |p.a|
  {
    p.a[k].anEq[s.iCol] == 0 && !p.a[k].isPSample ==> p.a[k].iCol > s.iCol && Better(s, p.a[k])
  }

  /** The sample is appended: it is periodic, or no other sample shares its run. */
  predicate IsAppended(p: Accum, s: Sample)
    requires IsAccum(p) && IsSample(s, p.nCol)
  {
    s.isPSample || (!PeriodicOpen(p.a, p.nCol, s.iCol) && Candidate(p.a, p.nCol, s.iCol, 0) < 0)
  }

  /** The last sample, after an eviction, is of an earlier row. */
  ghost predicate InOrder(a: seq<Sample>, s: Sample) {
    a != [] ==> |a[|a| - 1].anLt| > 0 && |s.anLt| > 0 && RowOf(a[|a| - 1]) < RowOf(s)
  }

  /** A full table has a sample that can be evicted. */
  ghost predicate HasMin(p: Accum)
    requires IsAccum(p)
  {
    |p.a| >= p.mxSample ==> Worst(p.a, p.nCol, |p.a|) >= 0
  }

  /** Inserting s: its count is positive, the search for an upgrade, the order of the samples, and the new minimum. */
  ghost predicate InsertAsserts(p: Accum, s: Sample, n: nat)
    requires IsAccum(p) && CanEvict(p) && IsSample(s, p.nCol) && n <= p.nCol
  {
    && (!s.isPSample ==> s.anEq[s.iCol] > 0 && forall k :: 0 <= k < |p.a| ==> Beaten(p, s, k))
    && (IsAppended(p, s) ==> InOrder(Kept(p), s))
    && HasMin(Insert(p, s, n))
  }

  ghost predicate OfferAsserts(p: Accum, i: nat)
    requires IsAccum(p) && CanEvict(p) && i < p.nCol
  {
    |p.a| < p.mxSample || Better(Offer(p, i), p.a[p.iMin]) ==> InsertAsserts(Offered(p, i), Offer(p, i), i)
  }

  /** The offers of columns i down to lo and then, for every sample, no unknown count from nMaxEqZero on. */
  ghost predicate FlushAsserts(p: Accum, i: int, lo: nat)
    requires Sound(p, p.nRow) && i < p.nCol
    decreases i
  {
    if i < lo then ZeroBound(p.nCol, p.a, p.nMaxEqZero)
    else
      PushBestReady(p, i);
      OfferAsserts(p, i) && FlushAsserts(PushBest(p, i), i - 1, lo)
  }

  /** What is inserted when the row is a periodic sample. */
  ghost predicate PeriodicAsserts(p: Accum)
    requires IsAccum(p) && CanEvict(p)
  {
    IsPeriodic(p.current.anLt[p.nCol - 1], p.nPSample) ==>
      InsertAsserts(p, p.current.(isPSample := true, iCol := 0), p.nCol - 1)
  }

  /** One call of statPush. */
  ghost predicate PushAsserts(p: Accum, x: nat, id: int)
    requires Ready(p) && p.nRow < p.nEst && x < p.nCol
  {
    (p.nRow > 0 ==> FlushAsserts(p, p.nCol - 2, x)) && PeriodicAsserts(Arrived(p, x, id))
  }

  // ---- Why they hold ----

  lemma MinExists(p: Accum)
    requires IsAccum(p) && NumPeriodic(p.a) < p.mxSample
    ensures HasMin(p)
  {
    if |p.a| >= p.mxSample {
      SomeNotPeriodic(p.a);
      WorstIsWorst(p.a, p.nCol, |p.a|);
    }
  }

  lemma InsertMin(p: Accum, s: Sample, n: nat)
    requires IsAccum(p) && CanEvict(p) && IsSample(s, p.nCol) && n <= p.nCol
    requires NumPeriodic(p.a) + (if s.isPSample then 1 else 0) < p.mxSample
    ensures HasMin(Insert(p, s, n))
  {
    InsertReady(p, s, n);
    MinExists(Insert(p, s, n));
  }

  lemma OfferBeaten(h: History, p: Accum, i: nat)
    requires Mid(h, p, i) && i < p.nCol - 1
    ensures var b := Offer(p, i);
            b.iCol == i && !b.isPSample && b.anEq[i] > 0 && forall k :: 0 <= k < |p.a| ==> Beaten(Offered(p, i), b, k)
  {
    OfferOk(h, p, i);
    forall k | 0 <= k < |p.a| && p.a[k].anEq[i] == 0 && !p.a[k].isPSample
      ensures p.a[k].iCol > i && Better(Offer(p, i), p.a[k])
    {
      assert IsKept(h, p.nCol, p.a[k], i);
      OfferBeats(h, p, i, p.a[k]);
    }
  }

  lemma OfferInOrder(h: History, p: Accum, i: nat)
    requires Mid(h, p, i) && i < p.nCol - 1
    requires !PeriodicOpen(p.a, p.nCol, i) && Candidate(p.a, p.nCol, i, 0) < 0
    ensures CanEvict(p) && InOrder(Kept(p), Offer(p, i))
  {
    NoneOpen(h, p, i);
    OfferLater(h, p, i, p.a);
    KeptMembers(h, p, i);
    OfferOk(h, p, i);
  }

  lemma OfferAssertsOk(h: History, p: Accum, i: nat)
    requires Mid(h, p, i) && i < p.nCol - 1
    ensures CanEvict(p) && OfferAsserts(p, i)
  {
    KeptMembers(h, p, i);
    OfferBeaten(h, p, i);
    InsertMin(Offered(p, i), Offer(p, i), i);
    if IsAppended(Offered(p, i), Offer(p, i)) { OfferInOrder(h, p, i); }
  }

  lemma {:induction false} FlushAssertsOk(h: History, p: Accum, i: int, lo: nat)
    requires CanFlush(h, p, i)
    ensures FlushAsserts(p, i, lo)
    decreases i
  {
    if i >= lo {
      OfferAssertsOk(h, p, i);
      PushBestCan(h, p, i);
      PushBestReady(p, i);
      FlushAssertsOk(h, PushBest(p, i), i - 1, lo);
    }
  }

  lemma PeriodicInOrder(h: History, p: Accum, x: nat)
    requires Arriving(h, p, x) && FromEarlierRows(h, p.nCol, p.a)
    ensures CanEvict(p) && InOrder(Kept(p), p.current.(isPSample := true, iCol := 0))
  {
    KeptMembers(h, p, p.nCol - 2);
  }

  lemma PeriodicMin(p: Accum)
    requires 0 < p.nRow <= p.nEst && Sound(p, p.nRow - 1) && IsPeriodic(p.nRow - 1, p.nPSample)
    ensures HasMin(Insert(p, p.current.(isPSample := true, iCol := 0), p.nCol - 1))
  {
    PeriodicFew(p.nEst, p.mxSample, p.nRow);
    QuotientStep(p.nRow - 1, p.nPSample);
    InsertMin(p, p.current.(isPSample := true, iCol := 0), p.nCol - 1);
  }

  lemma PeriodicAssertsOk(h: History, p: Accum, x: nat)
    requires Arriving(h, p, x) && FromEarlierRows(h, p.nCol, p.a)
    ensures PeriodicAsserts(p)
  {
    PeriodicInOrder(h, p, x);
    if IsPeriodic(p.nRow - 1, p.nPSample) { PeriodicMin(p); }
  }

  lemma PushAssertsOk(h: History, p: Accum, x: nat, id: int)
    requires Rested(h, p) && p.nRow < p.nEst && x < p.nCol
    ensures PushAsserts(p, x, id)
  {
    FlushAssertsOk(h, p, p.nCol - 2, x);
    ArrivedOk(h, p, x, id);
    PeriodicAssertsOk(Next(h, x, id), Arrived(p, x, id), x);
  }

  lemma FirstAssertsOk(p: Accum, id: int)
    requires Blank(p) && p.nEst > 0
    ensures PushAsserts(p, 0, id)
  {
    FirstRowOk(p, id);
    PeriodicAssertsOk(History([0], [id]), Arrived(p, 0, id), 0);
  }

  /** The state before row k. */
  function StateAt(p: Accum, c: seq<nat>, ids: seq<int>, k: nat): (q: Accum)
    requires Ready(p) && k <= |c| == |ids| && p.nRow + |c| <= p.nEst && IsChanges(c, p.nCol)
    ensures Ready(q) && q.nRow == p.nRow + k && q.nEst == p.nEst && q.nCol == p.nCol
  {
    Run(p, c[..k], ids[..k])
  }

  lemma RestedAt(p: Accum, c: seq<nat>, ids: seq<int>, k: nat)
    requires Blank(p) && 0 < k <= |c| == |ids| <= p.nEst && IsChanges(c, p.nCol)
    ensures Rested(History(c[..k], ids[..k]), StateAt(p, c, ids, k))
  {
    RunOk(p, c[..k], ids[..k]);
  }

  lemma FirstState(p: Accum, c: seq<nat>, ids: seq<int>)
    requires Ready(p) && |c| == |ids| && p.nRow + |c| <= p.nEst && IsChanges(c, p.nCol)
    ensures StateAt(p, c, ids, 0) == p
  {
  }

  lemma RowAsserts(p: Accum, c: seq<nat>, ids: seq<int>, k: nat)
    requires Blank(p) && k < |c| == |ids| <= p.nEst && IsChanges(c, p.nCol)
    ensures PushAsserts(StateAt(p, c, ids, k), c[k], ids[k])
  {
    if k == 0 {
      FirstState(p, c, ids);
      FirstAssertsOk(p, ids[0]);
    } else {
      RestedAt(p, c, ids, k);
      PushAssertsOk(History(c[..k], ids[..k]), StateAt(p, c, ids, k), c[k], ids[k]);
    }
  }

  lemma EndAsserts(h: History, p: Accum)
    requires Rested(h, p)
    ensures FlushAsserts(p, p.nCol - 2, 0)
  {
    FlushAssertsOk(h, p, p.nCol - 2, 0);
  }

  /**
   In every scan of at most the announced number of rows, all the assertions hold: in each call of statPush, and in the
   flush that closes the scan.
   */
  lemma AssertionsHold(p: Accum, c: seq<nat>, ids: seq<int>)
    requires Blank(p) && 0 < |c| == |ids| <= p.nEst && IsChanges(c, p.nCol)
    ensures forall k :: 0 <= k < |c| ==> PushAsserts(StateAt(p, c, ids, k), c[k], ids[k])
    ensures FlushAsserts(StateAt(p, c, ids, |c|), p.nCol - 2, 0)
  {
    forall k | 0 <= k < |c| ensures PushAsserts(StateAt(p, c, ids, k), c[k], ids[k]) { RowAsserts(p, c, ids, k); }
    RestedAt(p, c, ids, |c|);
    EndAsserts(History(c[..|c|], ids[..|c|]), StateAt(p, c, ids, |c|));
  }
}
