/**
 What the samples are chosen for: no prefix is missed that is more frequent than those of the samples that are kept.
 */
module Stat4Frequent {
  import Lex
  import opened Scan
  import opened Stat4
  import opened Stat4Invariant
  import opened Stat4Theorem

  // ---- Represented runs ----

  /** The number of rows that a sample stands for: the rows of its run in the column that it was chosen for. */
  function Weight(s: Sample): nat
    requires s.iCol < |s.anEq|
  {
    s.anEq[s.iCol]
  }

  ghost predicate InRun(h: History, nCol: nat, s: Sample, r: nat, j: nat)
    requires r < |h.c|
  {
    IsSample(s, nCol) && nCol > 0 && RowOf(s) < |h.c| && Start(h.c, RowOf(s), j) == Start(h.c, r, j)
  }

  /** A sample of the run that is periodic or was chosen for a column up to j. */
  ghost predicate HasSample(h: History, nCol: nat, a: seq<Sample>, r: nat, j: nat)
    requires r < |h.c|
  {
    exists k :: 0 <= k < |a| && InRun(h, nCol, a[k], r, j) && (a[k].isPSample || a[k].iCol <= j)
  }

  /** The table is full, and every sample that was chosen for a column stands for at least w rows. */
  ghost predicate Outweighed(p: Accum, w: int)
    requires IsAccum(p)
  {
    |p.a| == p.mxSample && forall k :: 0 <= k < |p.a| && !p.a[k].isPSample ==> Weight(p.a[k]) >= w
  }

  ghost predicate Represented(h: History, p: Accum, r: nat, j: nat)
    requires IsAccum(p) && r < |h.c|
  {
    HasSample(h, p.nCol, p.a, r, j) || Outweighed(p, Count(h.c, r, j))
  }

  /** Every run that has ended, or that the flush has dealt with, is represented. */
  ghost predicate Frequent(h: History, p: Accum, i: int) {
    && IsAccum(p)
    && forall r: nat, j: nat {:trigger Represented(h, p, r, j)} ::
         r < |h.c| && j < p.nCol - 1 && (!Open(h.c, r, j) || j > i) ==> Represented(h, p, r, j)
  }

  // ---- Weights ----

  lemma HeavierIsBetter(s: Sample, t: Sample)
    requires s.iCol < |s.anEq| && t.iCol < |t.anEq|
    ensures Better(s, t) ==> Weight(s) >= Weight(t)
    ensures !Better(s, t) ==> Weight(t) >= Weight(s)
  {
    if Weight(s) > Weight(t) {
      Lex.LessAt(Score(t), Score(s), 0);
    } else if Weight(t) > Weight(s) {
      Lex.LessAt(Score(s), Score(t), 0);
      Lex.Asymmetric(Score(s), Score(t));
    }
  }

  lemma OneRun(c: seq<nat>, q: nat, r: nat, j: nat)
    requires q < |c| && r < |c| && Start(c, q, j) == Start(c, r, j)
    ensures Count(c, q, j) == Count(c, r, j)
  {
    SameRun(c, q, Start(c, q, j), j);
    SameRun(c, r, Start(c, r, j), j);
  }

  lemma OpenCount(c: seq<nat>, r: nat, j: nat)
    requires r < |c| && Open(c, r, j)
    ensures Start(c, r, j) == Start(c, |c| - 1, j) && Count(c, r, j) == Count(c, |c| - 1, j)
  {
    OpenEnd(c, r, j);
    OneRun(c, r, |c| - 1, j);
  }

  /** A sample chosen for a column up to j stands for at least the rows of its run in column j. */
  lemma Outweighs(h: History, nCol: nat, s: Sample, i: int, r: nat, j: nat)
    requires IsHistory(h, nCol) && r < |h.c| && IsKept(h, nCol, s, i) && !s.isPSample && s.iCol <= j
    requires InRun(h, nCol, s, r, j)
    ensures Weight(s) >= Count(h.c, r, j)
  {
    Nested(h.c, RowOf(s), s.iCol, j);
    OneRun(h.c, RowOf(s), r, j);
  }

  /** In a full table, all samples but the periodic ones stand for at least as many rows as the one at iMin. */
  lemma MinWeight(p: Accum, k: nat)
    requires IsAccum(p) && MinOk(p) && |p.a| == p.mxSample && k < |p.a| && !p.a[k].isPSample
    ensures 0 <= p.iMin < |p.a| && Weight(p.a[k]) >= Weight(p.a[p.iMin])
  {
    HeavierIsBetter(p.a[p.iMin], p.a[k]);
  }

  // ---- One offer ----

  /** When samples of a run stay, the run stays represented. */
  lemma StaysByIndex(h: History, p: Accum, q: Accum, r: nat, j: nat)
    requires IsAccum(p) && IsAccum(q) && r < |h.c| && q.nCol == p.nCol && q.mxSample == p.mxSample && |q.a| == |p.a|
    requires forall k :: 0 <= k < |p.a| ==>
               && q.a[k].anLt == p.a[k].anLt && q.a[k].isPSample == p.a[k].isPSample
               && q.a[k].iCol <= p.a[k].iCol && (!p.a[k].isPSample ==> Weight(q.a[k]) >= Weight(p.a[k]))
    requires Represented(h, p, r, j)
    ensures Represented(h, q, r, j)
  {
    if HasSample(h, p.nCol, p.a, r, j) {
      var k :| 0 <= k < |p.a| && InRun(h, p.nCol, p.a[k], r, j) && (p.a[k].isPSample || p.a[k].iCol <= j);
      assert InRun(h, q.nCol, q.a[k], r, j);
    }
  }

  /** A rejected run is no more frequent than the samples that are kept. */
  lemma RejectFrequent(h: History, p: Accum, i: nat, r: nat)
    requires Mid(h, p, i) && i < p.nCol - 1 && r < |h.c| && Open(h.c, r, i)
    requires |p.a| == p.mxSample && !Better(Offer(p, i), p.a[p.iMin])
    ensures Represented(h, p, r, i)
  {
    OfferOk(h, p, i);
    OpenCount(h.c, r, i);
    HeavierIsBetter(Offer(p, i), p.a[p.iMin]);
    forall k | 0 <= k < |p.a| && !p.a[k].isPSample
      ensures Weight(p.a[k]) >= Count(h.c, r, i)
    {
      MinWeight(p, k);
    }
  }

  /** A periodic sample of the run represents it. */
  lemma SharedFrequent(h: History, p: Accum, i: nat, r: nat)
    requires Mid(h, p, i) && i < p.nCol - 1 && r < |h.c| && Open(h.c, r, i) && PeriodicOpen(p.a, p.nCol, i)
    ensures Represented(h, p, r, i)
  {
    var k :| 0 <= k < |p.a| && p.a[k].anEq[i] == 0 && p.a[k].isPSample;
    assert IsKept(h, p.nCol, p.a[k], i);
    OpenCount(h.c, r, i);
    OpenCount(h.c, RowOf(p.a[k]), i);
    assert InRun(h, p.nCol, p.a[k], r, i);
  }

  /** The sample to upgrade shares the run of the offer, and the offer has no less weight. */
  lemma UpgradeWeight(h: History, p: Accum, i: nat, t: nat)
    requires Mid(h, p, i) && i < p.nCol - 1 && !PeriodicOpen(p.a, p.nCol, i) && t == Candidate(p.a, p.nCol, i, 0)
    ensures p.a[t].anEq[i] == 0 && !p.a[t].isPSample && Open(h.c, RowOf(p.a[t]), i)
    ensures i < p.a[t].iCol && Offer(p, i).anEq[i] >= Weight(p.a[t])
  {
    CandidateBest(p.a, p.nCol, i, 0);
    assert IsKept(h, p.nCol, p.a[t], i);
    OfferOk(h, p, i);
    OfferBeats(h, p, i, p.a[t]);
    HeavierIsBetter(Offer(p, i), p.a[t]);
  }

  /** The samples after an upgrade are those before, one of them with more weight. */
  lemma UpgradeFrequent(h: History, p: Accum, i: nat, t: nat, q: Accum)
    requires Mid(h, p, i) && i < p.nCol - 1 && !PeriodicOpen(p.a, p.nCol, i) && t == Candidate(p.a, p.nCol, i, 0)
    requires q == FindNewMin(Upgrade(Offered(p, i), t, i, Offer(p, i).anEq[i]))
    ensures forall r: nat, j: nat :: r < |h.c| && Represented(h, p, r, j) ==> Represented(h, q, r, j)
  {
    UpgradeWeight(h, p, i, t);
    assert q.a == p.a[t := Raised(p.a[t], i, Offer(p, i).anEq[i])];
    forall r: nat, j: nat | r < |h.c| && Represented(h, p, r, j)
      ensures Represented(h, q, r, j)
    {
      StaysByIndex(h, p, q, r, j);
    }
  }

  /** The upgraded sample represents the run that ends. */
  lemma UpgradeRepresents(h: History, p: Accum, i: nat, t: nat, q: Accum, r: nat)
    requires Mid(h, p, i) && i < p.nCol - 1 && !PeriodicOpen(p.a, p.nCol, i) && t == Candidate(p.a, p.nCol, i, 0)
    requires q == FindNewMin(Upgrade(Offered(p, i), t, i, Offer(p, i).anEq[i]))
    requires r < |h.c| && Open(h.c, r, i)
    ensures Represented(h, q, r, i)
  {
    UpgradeWeight(h, p, i, t);
    OpenCount(h.c, r, i);
    OpenCount(h.c, RowOf(p.a[t]), i);
    assert q.a[t] == Raised(p.a[t], i, Offer(p, i).anEq[i]);
    assert InRun(h, q.nCol, q.a[t], r, i);
  }

  /** A sample that makes room for another one is outweighed by all that stay, and so are the runs it represented. */
  lemma AppendFrequent(h: History, p: Accum, s: Sample, n: nat, i: int, q: Accum, r: nat, j: nat)
    requires Samples(h, p, i) && CanEvict(p) && IsSample(s, p.nCol) && n <= p.nCol && r < |h.c|
    requires !s.isPSample ==> n <= s.iCol && (|p.a| == p.mxSample ==> Weight(s) >= Weight(p.a[p.iMin]))
    requires q.nCol == p.nCol && q.mxSample == p.mxSample && q.a == Kept(p) + [Zeroed(s, n)] && IsAccum(q)
    requires Represented(h, p, r, j)
    ensures Represented(h, q, r, j)
  {
    if HasSample(h, p.nCol, p.a, r, j) {
      var k :| 0 <= k < |p.a| && InRun(h, p.nCol, p.a[k], r, j) && (p.a[k].isPSample || p.a[k].iCol <= j);
      if |p.a| < p.mxSample || k != p.iMin {
        var l := if |p.a| < p.mxSample || k < p.iMin then k else k - 1;
        assert InRun(h, q.nCol, q.a[l], r, j);
      } else {
        assert IsKept(h, p.nCol, p.a[k], i);
        Outweighs(h, p.nCol, p.a[k], i, r, j);
        AllHeavier(p, s, n, q, Weight(p.a[p.iMin]));
      }
    } else {
      AllHeavier(p, s, n, q, Count(h.c, r, j));
    }
  }

  lemma AllHeavier(p: Accum, s: Sample, n: nat, q: Accum, w: int)
    requires IsAccum(p) && IsAccum(q) && CanEvict(p) && MinOk(p) && IsSample(s, p.nCol) && n <= p.nCol
    requires |p.a| == p.mxSample == q.mxSample && Weight(p.a[p.iMin]) >= w
    requires !s.isPSample ==> n <= s.iCol && Weight(s) >= Weight(p.a[p.iMin])
    requires q.a == Kept(p) + [Zeroed(s, n)]
    ensures Outweighed(q, w)
  {
    forall k | 0 <= k < |q.a| && !q.a[k].isPSample
      ensures Weight(q.a[k]) >= w
    {
      if k < |q.a| - 1 {
        var l := if k < p.iMin then k else k + 1;
        assert q.a[k] == p.a[l];
        MinWeight(p, l);
      }
    }
  }

  /** What one offer keeps and adds. */
  ghost predicate Advances(h: History, p: Accum, q: Accum, i: nat)
    requires IsAccum(p) && IsAccum(q)
  {
    && (forall r: nat, j: nat {:trigger Represented(h, q, r, j)} ::
          r < |h.c| && Represented(h, p, r, j) ==> Represented(h, q, r, j))
    && (forall r: nat {:trigger Represented(h, q, r, i)} :: r < |h.c| && Open(h.c, r, i) ==> Represented(h, q, r, i))
  }

  lemma AppendAdvances(h: History, p: Accum, i: nat, q: Accum)
    requires Mid(h, p, i) && i < p.nCol - 1 && CanEvict(p)
    requires |p.a| == p.mxSample ==> Better(Offer(p, i), p.a[p.iMin])
    requires IsAccum(q) && q.nCol == p.nCol && q.mxSample == p.mxSample && q.a == Kept(p) + [Zeroed(Offer(p, i), i)]
    ensures Advances(h, p, q, i)
  {
    var b := Offer(p, i);
    OfferOk(h, p, i);
    if |p.a| == p.mxSample { HeavierIsBetter(b, p.a[p.iMin]); }
    forall r: nat, j: nat | r < |h.c| && Represented(h, p, r, j)
      ensures Represented(h, q, r, j)
    {
      AppendFrequent(h, p, b, i, i, q, r, j);
    }
    forall r: nat | r < |h.c| && Open(h.c, r, i)
      ensures Represented(h, q, r, i)
    {
      OpenCount(h.c, r, i);
      OpenCount(h.c, RowOf(b), i);
      assert InRun(h, q.nCol, q.a[|q.a| - 1], r, i);
    }
  }

  lemma SameSamples(h: History, p: Accum, q: Accum, i: nat)
    requires IsAccum(p) && IsAccum(q) && q.a == p.a && q.nCol == p.nCol && q.mxSample == p.mxSample
    requires forall r: nat :: r < |h.c| && Open(h.c, r, i) ==> Represented(h, p, r, i)
    ensures Advances(h, p, q, i)
  {
    forall r: nat, j: nat | r < |h.c| && Represented(h, p, r, j)
      ensures Represented(h, q, r, j)
    {
      StaysByIndex(h, p, q, r, j);
    }
  }

  lemma RejectAdvances(h: History, p: Accum, i: nat)
    requires Mid(h, p, i) && i < p.nCol - 1 && |p.a| == p.mxSample && !Better(Offer(p, i), p.a[p.iMin])
    ensures Advances(h, p, Offered(p, i), i)
  {
    forall r: nat | r < |h.c| && Open(h.c, r, i) ensures Represented(h, p, r, i) { RejectFrequent(h, p, i, r); }
    SameSamples(h, p, Offered(p, i), i);
  }

  lemma SharedAdvances(h: History, p: Accum, i: nat)
    requires Mid(h, p, i) && i < p.nCol - 1 && PeriodicOpen(p.a, p.nCol, i)
    ensures Advances(h, p, Offered(Bounded(p, i), i), i)
  {
    forall r: nat | r < |h.c| && Open(h.c, r, i) ensures Represented(h, p, r, i) { SharedFrequent(h, p, i, r); }
    SameSamples(h, p, Offered(Bounded(p, i), i), i);
  }

  lemma UpgradeAdvances(h: History, p: Accum, i: nat, t: nat)
    requires Mid(h, p, i) && i < p.nCol - 1 && !PeriodicOpen(p.a, p.nCol, i) && t == Candidate(p.a, p.nCol, i, 0)
    ensures Advances(h, p, FindNewMin(Upgrade(Offered(p, i), t, i, Offer(p, i).anEq[i])), i)
  {
    var q := FindNewMin(Upgrade(Offered(p, i), t, i, Offer(p, i).anEq[i]));
    UpgradeFrequent(h, p, i, t, q);
    forall r: nat | r < |h.c|
        && Open(h.c, r, i) ensures Represented(h, q, r, i) { UpgradeRepresents(h, p, i, t, q, r); }
  }

  lemma InsertAdvances(h: History, p: Accum, i: nat)
    requires Mid(h, p, i) && i < p.nCol - 1 && p.nMaxEqZero >= i
    requires !PeriodicOpen(p.a, p.nCol, i) && Candidate(p.a, p.nCol, i, 0) < 0
    requires |p.a| == p.mxSample ==> Better(Offer(p, i), p.a[p.iMin])
    ensures CanEvict(Offered(p, i)) && Advances(h, p, FindNewMin(Append(Offered(p, i), Offer(p, i), i)), i)
  {
    OfferAppended(h, p, i);
    AppendAdvances(h, p, i, FindNewMin(Append(Offered(p, i), Offer(p, i), i)));
  }

  lemma AcceptAdvances(h: History, p: Accum, i: nat)
    requires Mid(h, p, i) && i < p.nCol - 1 && CanEvict(p)
    requires |p.a| == p.mxSample ==> Better(Offer(p, i), p.a[p.iMin])
    ensures Advances(h, p, PushBest(p, i), i)
  {
    var m := Bounded(p, i);
    BoundedOk(h, p, i);
    assert Offer(p, i).iCol == i && !Offer(p, i).isPSample by { OfferOk(h, p, i); }
    PushBestCases(p, i);
    if PeriodicOpen(p.a, p.nCol, i) {
      SharedAdvances(h, p, i);
    } else if Candidate(p.a, p.nCol, i, 0) >= 0 {
      UpgradeAdvances(h, m, i, Candidate(p.a, p.nCol, i, 0));
      BoundedSame(h, p, i);
    } else {
      InsertAdvances(h, m, i);
      BoundedSame(h, p, i);
    }
  }

  lemma BoundedSame(h: History, p: Accum, i: nat)
    requires IsAccum(p)
    ensures forall r: nat, j: nat :: r < |h.c| && Represented(h, p, r, j) ==> Represented(h, Bounded(p, i), r, j)
  {
    forall r: nat, j: nat | r < |h.c| && Represented(h, p, r, j)
      ensures Represented(h, Bounded(p, i), r, j)
    {
      StaysByIndex(h, p, Bounded(p, i), r, j);
    }
  }

  lemma PushBestAdvances(h: History, p: Accum, i: nat)
    requires Mid(h, p, i) && i < p.nCol - 1 && CanEvict(p)
    ensures Advances(h, p, PushBest(p, i), i)
  {
    if |p.a| == p.mxSample && !Better(Offer(p, i), p.a[p.iMin]) {
      assert Offer(p, i).iCol == i && !Offer(p, i).isPSample by { OfferOk(h, p, i); }
      PushBestCases(p, i);
      RejectAdvances(h, p, i);
    } else {
      AcceptAdvances(h, p, i);
    }
  }

  // ---- A flush ----

  lemma PushBestFrequent(h: History, p: Accum, i: nat)
    requires Mid(h, p, i) && i < p.nCol - 1 && CanEvict(p) && Frequent(h, p, i) && PushBest(p, i).nCol == p.nCol
    ensures Frequent(h, PushBest(p, i), i - 1)
  {
    PushBestAdvances(h, p, i);
  }

  lemma {:induction false} PushDownFrequent(h: History, p: Accum, i: int, lo: nat)
    requires CanFlush(h, p, i) && Frequent(h, p, i)
    ensures Frequent(h, PushDown(p, i, lo), if i < lo then i else lo - 1)
    decreases i
  {
    if i >= lo {
      PushDownStep(p, i, lo);
      PushBestCan(h, p, i);
      PushBestFrequent(h, p, i);
      PushDownFrequent(h, PushBest(p, i), i - 1, lo);
    }
  }

  lemma FillFrequent(h: History, p: Accum, i: int, lo: nat)
    requires Samples(h, p, i) && IsSample(p.current, p.nCol) && Frequent(h, p, i)
    ensures Frequent(h, FillAll(p, lo), i)
  {
    var q := FillAll(p, lo);
    forall k | 0 <= k < |p.a|
      ensures q.a[k].anLt == p.a[k].anLt && q.a[k].isPSample == p.a[k].isPSample && q.a[k].iCol == p.a[k].iCol
      ensures !p.a[k].isPSample ==> Weight(q.a[k]) == Weight(p.a[k])
    {
      assert IsKept(h, p.nCol, p.a[k], i);
    }
    forall r: nat, j: nat | r < |h.c| && Represented(h, p, r, j)
      ensures Represented(h, q, r, j)
    {
      StaysByIndex(h, p, q, r, j);
    }
  }

  lemma DownFrequent(h: History, p: Accum, i: int, lo: nat)
    requires CanFlush(h, p, i) && Frequent(h, p, i) && lo <= i + 1
    ensures CanFlush(h, PushDown(p, i, lo), lo - 1) && Frequent(h, PushDown(p, i, lo), lo - 1)
  {
    PushDownOk(h, p, i, lo);
    PushDownFrequent(h, p, i, lo);
  }

  lemma FlushFrequent(h: History, p: Accum, lo: nat)
    requires Sound(p, p.nRow) && Mid(h, p, p.nCol - 2) && lo < p.nCol && Frequent(h, p, p.nCol - 2)
    ensures Frequent(h, PushPrevious(p, lo), lo - 1)
  {
    DownFrequent(h, p, p.nCol - 2, lo);
    FilledFrequent(h, PushDown(p, p.nCol - 2, lo), lo);
  }

  lemma FilledFrequent(h: History, p: Accum, lo: nat)
    requires CanFlush(h, p, lo - 1) && Frequent(h, p, lo - 1)
    ensures Frequent(h, FillAll(p, lo), lo - 1)
  {
    FillFrequent(h, p, lo - 1, lo);
  }

  // ---- The next row ----

  lemma RepresentedNext(h: History, p: Accum, x: nat, id: int, q: Accum, r: nat, j: nat)
    requires IsAccum(p) && IsAccum(q) && q.a == p.a && q.nCol == p.nCol && q.mxSample == p.mxSample
    requires r < |h.c| && Represented(h, p, r, j) && (!Open(h.c, r, j) || j >= x)
    ensures Represented(Next(h, x, id), q, r, j)
  {
    Extend(h.c, x, r, j);
    OpenEnd(h.c, r, j);
    if HasSample(h, p.nCol, p.a, r, j) {
      var k :| 0 <= k < |p.a| && InRun(h, p.nCol, p.a[k], r, j) && (p.a[k].isPSample || p.a[k].iCol <= j);
      Extend(h.c, x, RowOf(p.a[k]), j);
      assert InRun(Next(h, x, id), q.nCol, q.a[k], r, j);
    }
  }

  lemma NextFrequent(h: History, p: Accum, x: nat, id: int, q: Accum)
    requires IsHistory(h, p.nCol) && Frequent(h, p, x - 1) && IsAccum(q)
    requires q.a == p.a && q.nCol == p.nCol && q.mxSample == p.mxSample
    ensures Frequent(Next(h, x, id), q, q.nCol - 2)
  {
    var d := Next(h, x, id);
    forall r: nat, j: nat | r < |d.c| && j < q.nCol - 1 && (!Open(d.c, r, j) || j > q.nCol - 2)
      ensures Represented(d, q, r, j)
    {
      Extend(h.c, x, r, j);
      assert Represented(h, p, r, j);
      RepresentedNext(h, p, x, id, q, r, j);
    }
  }

  lemma ArrivedFrequent(h: History, p: Accum, x: nat, id: int)
    requires Rested(h, p) && x < p.nCol && p.nRow < p.nEst && Frequent(h, p, p.nCol - 2)
    ensures Frequent(Next(h, x, id), Arrived(p, x, id), p.nCol - 2)
  {
    FlushFrequent(h, p, x);
    NextFrequent(h, PushPrevious(p, x), x, id, Arrived(p, x, id));
  }

  lemma PeriodicFrequent(h: History, p: Accum, x: nat)
    requires Arriving(h, p, x) && FromEarlierRows(h, p.nCol, p.a) && Frequent(h, p, p.nCol - 2)
    ensures Frequent(h, PushPeriodic(p), p.nCol - 2)
  {
    if IsPeriodic(p.nRow - 1, p.nPSample) {
      var s, q := p.current.(isPSample := true, iCol := 0), PushPeriodic(p);
      PeriodicCase(p);
      forall r: nat, j: nat | r < |h.c| && Represented(h, p, r, j)
        ensures Represented(h, q, r, j)
      {
        AppendFrequent(h, p, s, p.nCol - 1, p.nCol - 2, q, r, j);
      }
    }
  }

  lemma BestFrequent(h: History, p: Accum, x: nat)
    requires IsAccum(p) && Frequent(h, p, p.nCol - 2)
    ensures Frequent(h, UpdateBest(p, x), p.nCol - 2)
  {
    var q := UpdateBest(p, x);
    forall r: nat, j: nat | r < |h.c| && Represented(h, p, r, j)
      ensures Represented(h, q, r, j)
    {
      StaysByIndex(h, p, q, r, j);
    }
  }

  lemma StatPushFrequent(h: History, p: Accum, x: nat, id: int)
    requires Rested(h, p) && x < p.nCol && p.nRow < p.nEst && Frequent(h, p, p.nCol - 2)
    ensures Frequent(Next(h, x, id), StatPush(p, x, id), p.nCol - 2)
  {
    ArrivedOk(h, p, x, id);
    ArrivedFrequent(h, p, x, id);
    PeriodicFrequent(Next(h, x, id), Arrived(p, x, id), x);
    BestFrequent(Next(h, x, id), PushPeriodic(Arrived(p, x, id)), x);
  }

  /** The only run after one row is open. */
  lemma FirstFrequent(p: Accum, id: int)
    requires IsAccum(p)
    ensures Frequent(History([0], [id]), p, p.nCol - 2)
  {
  }

  // ---- Whole scans ----

  lemma {:induction false} RunFrequent(p: Accum, c: seq<nat>, ids: seq<int>)
    requires Blank(p) && 0 < |c| == |ids| <= p.nEst && IsChanges(c, p.nCol)
    ensures Frequent(History(c, ids), Run(p, c, ids), p.nCol - 2)
    decreases |c|
  {
    var n := |c| - 1;
    if n == 0 {
      FirstRun(p, c, ids);
      FirstFrequent(Run(p, c, ids), ids[0]);
    } else {
      RunFrequent(p, c[..n], ids[..n]);
      RunOk(p, c[..n], ids[..n]);
      RunLast(p, c, ids);
      StatPushFrequent(History(c[..n], ids[..n]), Run(p, c[..n], ids[..n]), c[n], ids[n]);
      NextHistory(c, ids, n);
    }
  }

  /**
   The rows with the values that row r has in columns 0..j are sampled, or they are no more than those of any sample.
   */
  ghost predicate Sampled(rows: seq<Row>, nCol: nat, a: seq<Sample>, mxSample: nat, r: nat, j: nat)
    requires IsScan(rows, nCol) && r < |rows| && j < nCol && AreSamples(a, nCol)
  {
    || (exists s :: s in a && |s.anLt| > 0 && RowOf(s) in EqualRows(rows, nCol, r, j))
    || (|a| == mxSample && forall s :: s in a && !s.isPSample ==>
          && |s.anLt| > 0 && RowOf(s) < |rows| && s.iCol < nCol
          && |EqualRows(rows, nCol, r, j)| <= |EqualRows(rows, nCol, RowOf(s), s.iCol)|)
  }

  lemma RepresentedSampled(rows: seq<Row>, ids: seq<int>, p: Accum, r: nat, j: nat)
    requires IsScan(rows, p.nCol) && p.nCol > 0 && |ids| == |rows| && r < |rows| && j < p.nCol && IsAccum(p)
    requires AllExact(rows, ids, p.nCol, p.a)
    requires Represented(History(Changes(rows, p.nCol), ids), p, r, j)
    ensures Sampled(rows, p.nCol, p.a, p.mxSample, r, j)
  {
    var h := History(Changes(rows, p.nCol), ids);
    StatisticsFromChanges(rows, p.nCol, r, j);
    if HasSample(h, p.nCol, p.a, r, j) {
      var k :| 0 <= k < |p.a| && InRun(h, p.nCol, p.a[k], r, j) && (p.a[k].isPSample || p.a[k].iCol <= j);
      var q := RowOf(p.a[k]);
      SameRun(h.c, q, Start(h.c, q, j), j);
      SameRun(h.c, r, Start(h.c, r, j), j);
      RowOrder(rows, p.nCol, h.c, q, r, j);
      assert p.a[k] in p.a && q in EqualRows(rows, p.nCol, r, j);
    } else {
      forall s | s in p.a && !s.isPSample
        ensures RowOf(s) < |rows|
        ensures |EqualRows(rows, p.nCol, r, j)| <= |EqualRows(rows, p.nCol, RowOf(s), s.iCol)|
      {
        var k :| 0 <= k < |p.a| && p.a[k] == s;
        assert IsExact(rows, ids, p.nCol, p.a[k]);
      }
    }
  }

  lemma FlushSampled(rows: seq<Row>, ids: seq<int>, p: Accum, r: nat, j: nat)
    requires IsScan(rows, p.nCol) && |ids| == |rows| && p.nCol > 0 && r < |rows| && j < p.nCol - 1
    requires Rested(History(Changes(rows, p.nCol), ids), p)
    requires Frequent(History(Changes(rows, p.nCol), ids), p, p.nCol - 2)
    ensures var q := PushPrevious(p, 0);
            AreSamples(q.a, p.nCol) && Sampled(rows, p.nCol, q.a, p.mxSample, r, j)
  {
    var h := History(Changes(rows, p.nCol), ids);
    FlushFrequent(h, p, 0);
    FlushExact(rows, ids, p);
    assert Represented(h, PushPrevious(p, 0), r, j);
    RepresentedSampled(rows, ids, PushPrevious(p, 0), r, j);
  }

  /**
   What sampling promises: for every row and every number of leading columns, either some sample has the same values in
   these columns, or the table is full and the values are no more frequent than those that any sample was chosen for.
   */
  lemma NoneMissed(rows: seq<Row>, ids: seq<int>, nEst: nat, nCol: nat, mxSample: nat, seed: nat, r: nat, j: nat)
    requires IsScan(rows, nCol) && nCol > 0 && mxSample > 0 && |rows| == |ids| <= nEst && r < |rows| && j < nCol - 1
    ensures var a := PushPrevious(Run(Init(nEst, nCol, mxSample, seed), Changes(rows, nCol), ids), 0).a;
            AreSamples(a, nCol) && Sampled(rows, nCol, a, mxSample, r, j)
  {
    RunInit(nEst, nCol, mxSample, seed, Changes(rows, nCol), ids);
    RunFrequent(Init(nEst, nCol, mxSample, seed), Changes(rows, nCol), ids);
    FlushSampled(rows, ids, Run(Init(nEst, nCol, mxSample, seed), Changes(rows, nCol), ids), r, j);
  }
}
