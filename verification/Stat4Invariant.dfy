/**
 What the STAT4 sampler keeps between rows and while a flush is under way, and that every
 single step of it keeps that.
 */
module Stat4Invariant {
  import Lex
  import opened Scan
  import opened Stat4

  /** The scan so far: the change position and the rowid of every row. */
  datatype History = History(c: seq<nat>, ids: seq<int>)

  ghost predicate IsHistory(h: History, nCol: nat) {
    |h.c| == |h.ids| > 0 && IsChanges(h.c, nCol)
  }

  /** All rows of an index differ, so the rows before a sample's row identify it. */
  function RowOf(s: Sample): nat
    requires |s.anLt| > 0
  {
    s.anLt[|s.anLt| - 1]
  }

  /** The sample was taken from a row of the scan and has the statistics of that row. */
  ghost predicate Stamped(h: History, nCol: nat, s: Sample)
    requires IsHistory(h, nCol)
  {
    && nCol > 0 && IsSample(s, nCol)
    && RowOf(s) < |h.c|
    && s.rowid == h.ids[RowOf(s)]
    && (forall j :: 0 <= j < nCol ==> s.anLt[j] == Start(h.c, RowOf(s), j))
    && (forall j :: 0 <= j < nCol ==> s.anDLt[j] == Runs(h.c, RowOf(s), j))
  }

  /** Every known count is the count of the rows seen so far. */
  ghost predicate Counted(h: History, nCol: nat, s: Sample)
    requires IsHistory(h, nCol) && Stamped(h, nCol, s)
  {
    forall j :: 0 <= j < nCol && s.anEq[j] != 0 ==> s.anEq[j] == Count(h.c, RowOf(s), j)
  }

  /** Unknown counts belong to open runs; on the columns up to i every open run's count is unknown. */
  ghost predicate Pending(h: History, nCol: nat, s: Sample, i: int)
    requires IsHistory(h, nCol) && Stamped(h, nCol, s)
  {
    && (forall j :: 0 <= j < nCol && s.anEq[j] == 0 ==> Open(h.c, RowOf(s), j))
    && (forall j :: 0 <= j < nCol && j <= i && Open(h.c, RowOf(s), j) ==> s.anEq[j] == 0)
  }

  /** A sample that was chosen for a column knows the counts from that column on. */
  ghost predicate Known(nCol: nat, s: Sample)
    requires IsSample(s, nCol)
  {
    !s.isPSample ==> s.iCol + 1 < nCol && forall j :: s.iCol <= j < nCol ==> s.anEq[j] > 0
  }

  ghost predicate IsKept(h: History, nCol: nat, s: Sample, i: int)
    requires IsHistory(h, nCol)
  {
    Stamped(h, nCol, s) && Counted(h, nCol, s) && Pending(h, nCol, s, i) && Known(nCol, s)
  }

  /** The samples have the shape of samples and come from rows already scanned. */
  ghost predicate InHistory(h: History, nCol: nat, a: seq<Sample>)
    requires IsHistory(h, nCol)
  {
    nCol > 0 && AreSamples(a, nCol) && forall k :: 0 <= k < |a| ==> RowOf(a[k]) < |h.c|
  }

  ghost predicate AllKept(h: History, nCol: nat, a: seq<Sample>, i: int)
    requires IsHistory(h, nCol)
  {
    InHistory(h, nCol, a) && forall k {:trigger IsKept(h, nCol, a[k], i)} :: 0 <= k < |a| ==> IsKept(h, nCol, a[k], i)
  }

  ghost predicate Ascending(nCol: nat, a: seq<Sample>)
    requires nCol > 0 && AreSamples(a, nCol)
  {
    forall k, l {:trigger RowOf(a[k]), RowOf(a[l])} :: 0 <= k < l < |a| ==> RowOf(a[k]) < RowOf(a[l])
  }

  /** When the array is full, iMin is a least preferred sample among those that may be evicted. */
  ghost predicate MinOk(p: Accum)
    requires IsAccum(p)
  {
    |p.a| == p.mxSample ==>
      && 0 <= p.iMin < |p.a| && !p.a[p.iMin].isPSample
      && (forall k {:trigger Better(p.a[p.iMin], p.a[k])} :: 0 <= k < |p.a| && !p.a[k].isPSample ==>
          !Better(p.a[p.iMin], p.a[k]))
  }

  /** No sample has an unknown count at column nMaxEqZero or later. */
  ghost predicate ZeroBound(nCol: nat, a: seq<Sample>, bound: nat)
    requires AreSamples(a, nCol)
  {
    forall k, j :: 0 <= k < |a| && bound <= j < nCol ==> a[k].anEq[j] > 0
  }

  ghost predicate CurrentOk(h: History, nCol: nat, cur: Sample)
    requires IsHistory(h, nCol)
  {
    && Stamped(h, nCol, cur) && RowOf(cur) == |h.c| - 1
    && !cur.isPSample
    && (forall j :: 0 <= j < nCol ==> cur.anEq[j] == Count(h.c, |h.c| - 1, j))
  }

  /** aBest[i] is a row of column i's current run, and the last one so far of its own run of column i+1. */
  ghost predicate BestOk(h: History, nCol: nat, s: Sample, i: nat)
    requires IsHistory(h, nCol) && i + 1 < nCol
  {
    && Stamped(h, nCol, s) && !s.isPSample && s.iCol == i
    && Open(h.c, RowOf(s), i)
    && End(h.c, RowOf(s), i + 1) == RowOf(s) + 1
    && (forall j :: i < j < nCol ==> s.anEq[j] == Count(h.c, RowOf(s), j))
  }

  ghost predicate AllBest(h: History, nCol: nat, best: seq<Sample>)
    requires IsHistory(h, nCol) && |best| == nCol
  {
    forall i {:trigger BestOk(h, nCol, best[i], i)} :: 0 <= i < nCol - 1 ==> BestOk(h, nCol, best[i], i)
  }

  /** What the collected samples satisfy when the columns above i have been flushed. */
  ghost predicate Table(h: History, nCol: nat, a: seq<Sample>, bound: nat, i: int)
    requires IsHistory(h, nCol)
  {
    && nCol > 0 && AllKept(h, nCol, a, i) && Ascending(nCol, a) && ZeroBound(nCol, a, bound)
  }

  ghost predicate Samples(h: History, p: Accum, i: int) {
    && IsAccum(p) && IsHistory(h, p.nCol) && Table(h, p.nCol, p.a, p.nMaxEqZero, i)
    && NumPeriodic(p.a) < p.mxSample && MinOk(p)
  }

  /** The invariant during a flush; between rows it holds with i == nCol - 2. */
  ghost predicate Mid(h: History, p: Accum, i: int) {
    Samples(h, p, i) && CurrentOk(h, p.nCol, p.current) && AllBest(h, p.nCol, p.aBest)
  }

  /** Some sample in column j's current run is periodic or was chosen for a prefix no longer than j. */
  ghost predicate HasCover(h: History, nCol: nat, a: seq<Sample>, j: nat)
    requires IsHistory(h, nCol) && InHistory(h, nCol, a)
  {
    exists u :: 0 <= u < |a| && Open(h.c, RowOf(a[u]), j) && (a[u].isPSample || a[u].iCol <= j)
  }

  /** Some sample chosen for a column does not know its count of column j. */
  ghost predicate NeedsCover(nCol: nat, a: seq<Sample>, j: nat)
    requires j < nCol && AreSamples(a, nCol)
  {
    exists k :: 0 <= k < |a| && !a[k].isPSample && a[k].anEq[j] == 0
  }

  /** For an unknown count of a flushed column there is an open sample that takes precedence. */
  ghost predicate Covered(h: History, nCol: nat, a: seq<Sample>, i: int)
    requires IsHistory(h, nCol) && InHistory(h, nCol, a)
  {
    forall j: nat {:trigger HasCover(h, nCol, a, j)} ::
      i < j < nCol - 1 && NeedsCover(nCol, a, j) ==> HasCover(h, nCol, a, j)
  }

  /** The invariant during a flush, once the columns above i are done. */
  ghost predicate Flushed(h: History, q: Accum, i: int) {
    Mid(h, q, i) && Covered(h, q.nCol, q.a, i)
  }

  // ---- Flushing one column ----

  /** The sample that aBest[i] offers when column i's run ends. */
  function Offer(p: Accum, i: nat): (b: Sample)
    requires IsAccum(p) && i < p.nCol
    ensures IsSample(b, p.nCol)
  {
    p.aBest[i].(anEq := p.aBest[i].anEq[i := p.current.anEq[i]])
  }

  lemma OfferOk(h: History, p: Accum, i: nat)
    requires IsAccum(p) && IsHistory(h, p.nCol) && CurrentOk(h, p.nCol, p.current) && AllBest(h, p.nCol, p.aBest)
    requires i < p.nCol - 1
    ensures var b := Offer(p, i);
            && BestOk(h, p.nCol, b, i)
            && b.anEq[i] == Count(h.c, |h.c| - 1, i) == Count(h.c, RowOf(b), i)
            && (forall j :: i <= j < p.nCol ==> b.anEq[j] > 0)
  {
    assert BestOk(h, p.nCol, p.aBest[i], i);
    OpenEnd(h.c, RowOf(p.aBest[i]), i);
    OpenEnd(h.c, |h.c| - 1, i);
  }

  /** A sample sharing the run that ends was chosen for a longer prefix and is beaten by the offer. */
  lemma OfferBeats(h: History, p: Accum, i: nat, t: Sample)
    requires IsAccum(p) && IsHistory(h, p.nCol) && CurrentOk(h, p.nCol, p.current) && AllBest(h, p.nCol, p.aBest)
    requires i < p.nCol - 1
    requires IsKept(h, p.nCol, t, i) && !t.isPSample && t.anEq[i] == 0
    ensures i < t.iCol && Better(Offer(p, i), t)
  {
    OfferOk(h, p, i);
    var b := Offer(p, i);
    var r, l := RowOf(t), t.iCol;
    assert i < l;
    Nested(h.c, r, i, l);
    OpenEnd(h.c, r, i);
    OpenEnd(h.c, |h.c| - 1, i);
    assert t.anEq[l] <= b.anEq[i];
    if t.anEq[l] < b.anEq[i] {
      Lex.LessAt(Score(t), Score(b), 0);
    } else {
      assert Score(t)[..1] == Score(b)[..1];
      Lex.LessAt(Score(t), Score(b), 1);
    }
  }

  /** The chosen upgrade already knows every count after column i. */
  lemma UpgradeKnows(h: History, p: Accum, i: nat, t: nat)
    requires Flushed(h, p, i) && i < p.nCol - 1
    requires !PeriodicOpen(p.a, p.nCol, i)
    requires t == Candidate(p.a, p.nCol, i, 0)
    ensures forall j :: i < j < p.nCol ==> p.a[t].anEq[j] > 0
  {
    CandidateBest(p.a, p.nCol, i, 0);
    var s := p.a[t];
    assert IsKept(h, p.nCol, s, i);
    forall j | i < j < p.nCol ensures s.anEq[j] > 0 {
      if s.anEq[j] == 0 {
        assert j < s.iCol;
        assert NeedsCover(p.nCol, p.a, j) && HasCover(h, p.nCol, p.a, j);
        var u :| 0 <= u < |p.a| && Open(h.c, RowOf(p.a[u]), j) && (p.a[u].isPSample || p.a[u].iCol <= j);
        CoverWins(h, p.nCol, s, p.a[u], i, j);
        assert false;
      }
    }
  }

  /** Of two samples of one run, the one that covers the other's unknown count is preferred. */
  lemma CoverWins(h: History, nCol: nat, s: Sample, u: Sample, i: nat, j: nat)
    requires IsHistory(h, nCol) && i < j < nCol - 1
    requires IsKept(h, nCol, s, i) && !s.isPSample && s.anEq[j] == 0
    requires IsKept(h, nCol, u, i) && Open(h.c, RowOf(u), j) && (u.isPSample || u.iCol <= j)
    ensures u.anEq[i] == 0
    ensures !u.isPSample ==> Better(u, s)
  {
    var m, r, q := |h.c| - 1, RowOf(s), RowOf(u);
    Nested(h.c, m, i, j);
    if !u.isPSample {
      Nested(h.c, q, u.iCol, j);
      Nested(h.c, r, j, s.iCol);
      OpenEnd(h.c, q, j);
      OpenEnd(h.c, r, j);
      assert s.anEq[s.iCol] <= u.anEq[u.iCol];
      if s.anEq[s.iCol] < u.anEq[u.iCol] {
        Lex.LessAt(Score(s), Score(u), 0);
      } else {
        assert Score(s)[..1] == Score(u)[..1];
        Lex.LessAt(Score(s), Score(u), 1);
      }
    }
  }

  // ---- Keeping the invariant, case by case ----

  lemma FindNewMinOk(h: History, p: Accum, i: int)
    requires IsAccum(p) && IsHistory(h, p.nCol) && Table(h, p.nCol, p.a, p.nMaxEqZero, i)
    requires NumPeriodic(p.a) < p.mxSample
    ensures var q := FindNewMin(p); Samples(h, q, i) && q == p.(iMin := q.iMin)
  {
    if |p.a| == p.mxSample {
      WorstIsWorst(p.a, p.nCol, |p.a|);
      SomeNotPeriodic(p.a);
    }
  }

  /** The state after the offer has been written to aBest[i], before it is inserted. */
  function Offered(p: Accum, i: nat): (q: Accum)
    requires IsAccum(p) && i < p.nCol
    ensures IsAccum(q)
  {
    p.(aBest := p.aBest[i := Offer(p, i)])
  }

  lemma OfferedOk(h: History, p: Accum, i: nat)
    requires Mid(h, p, i) && i < p.nCol - 1
    ensures Mid(h, Offered(p, i), i)
  {
    OfferOk(h, p, i);
    var q := Offered(p, i);
    forall l | 0 <= l < q.nCol - 1 ensures BestOk(h, q.nCol, q.aBest[l], l) {
      assert BestOk(h, p.nCol, p.aBest[l], l);
    }
  }

  lemma WeakerKept(h: History, nCol: nat, a: seq<Sample>, i: int)
    requires IsHistory(h, nCol) && AllKept(h, nCol, a, i)
    ensures AllKept(h, nCol, a, i - 1)
  {
    forall k | 0 <= k < |a| ensures IsKept(h, nCol, a[k], i - 1) {
      assert IsKept(h, nCol, a[k], i);
    }
  }

  lemma WeakerSamples(h: History, p: Accum, i: int)
    requires Samples(h, p, i)
    ensures Samples(h, p, i - 1)
  {
    WeakerKept(h, p.nCol, p.a, i);
  }

  /** When column i joins the flushed ones without a change of the samples. */
  lemma CoveredNext(h: History, nCol: nat, a: seq<Sample>, i: nat)
    requires IsHistory(h, nCol) && nCol > 0 && AllKept(h, nCol, a, i) && i < nCol - 1
    requires Covered(h, nCol, a, i)
    requires (forall k :: 0 <= k < |a| && !a[k].isPSample ==> a[k].anEq[i] != 0) || PeriodicOpen(a, nCol, i)
    ensures Covered(h, nCol, a, i - 1)
  {
    forall j: nat | i - 1 < j < nCol - 1 && NeedsCover(nCol, a, j) ensures HasCover(h, nCol, a, j) {
      if j == i {
        var u :| 0 <= u < |a| && a[u].anEq[i] == 0 && a[u].isPSample;
        assert IsKept(h, nCol, a[u], i);
        assert Open(h.c, RowOf(a[u]), i);
      }
    }
  }

  /** Not inserted because the array is full of preferred samples: then none shares the run. */
  lemma RejectNone(h: History, p: Accum, i: nat)
    requires Mid(h, p, i) && i < p.nCol - 1
    requires |p.a| == p.mxSample && !Better(Offer(p, i), p.a[p.iMin])
    ensures forall k :: 0 <= k < |p.a| && !p.a[k].isPSample ==> p.a[k].anEq[i] != 0
  {
    var b, w := Offer(p, i), p.a[p.iMin];
    forall k | 0 <= k < |p.a| && !p.a[k].isPSample ensures p.a[k].anEq[i] != 0 {
      var t := p.a[k];
      assert IsKept(h, p.nCol, t, i);
      if t.anEq[i] == 0 {
        OfferBeats(h, p, i, t);
        assert !Better(w, t);
        Lex.Total(Score(b), Score(w));
        if Score(b) != Score(w) { Lex.Transitive(Score(t), Score(b), Score(w)); }
        assert false;
      }
    }
  }

  lemma RejectOk(h: History, p: Accum, i: nat)
    requires Flushed(h, p, i) && i < p.nCol - 1
    requires |p.a| == p.mxSample && !Better(Offer(p, i), p.a[p.iMin])
    ensures Mid(h, Offered(p, i), i - 1) && Covered(h, p.nCol, p.a, i - 1)
  {
    OfferedOk(h, p, i);
    RejectNone(h, p, i);
    WeakerKept(h, p.nCol, p.a, i);
    CoveredNext(h, p.nCol, p.a, i);
  }

  // ---- An upgrade ----

  function Raised(s: Sample, i: nat, count: nat): Sample
    requires i < |s.anEq|
  {
    s.(iCol := i, anEq := s.anEq[i := count])
  }

  lemma RaisedKept(h: History, nCol: nat, s: Sample, i: nat)
    requires IsHistory(h, nCol) && i < nCol - 1
    requires IsKept(h, nCol, s, i) && s.anEq[i] == 0
    requires forall j :: i < j < nCol ==> s.anEq[j] > 0
    ensures IsKept(h, nCol, Raised(s, i, Count(h.c, |h.c| - 1, i)), i - 1)
  {
    OpenEnd(h.c, RowOf(s), i);
    OpenEnd(h.c, |h.c| - 1, i);
    assert Count(h.c, |h.c| - 1, i) == Count(h.c, RowOf(s), i);
  }

  lemma UpgradedTable(h: History, nCol: nat, a: seq<Sample>, bound: nat, i: nat, t: nat)
    requires IsHistory(h, nCol) && i < nCol - 1 && t < |a|
    requires Table(h, nCol, a, bound, i) && a[t].anEq[i] == 0 && forall j :: i < j < nCol ==> a[t].anEq[j] > 0
    ensures Table(h, nCol, a[t := Raised(a[t], i, Count(h.c, |h.c| - 1, i))], bound, i - 1)
  {
    assert IsKept(h, nCol, a[t], i);
    RaisedKept(h, nCol, a[t], i);
    WeakerKept(h, nCol, a, i);
  }

  lemma UpgradedCover(h: History, nCol: nat, a: seq<Sample>, b: seq<Sample>, i: nat, t: nat)
    requires IsHistory(h, nCol) && i < nCol - 1 && t < |a|
    requires AllKept(h, nCol, a, i) && a[t].anEq[i] == 0 && !a[t].isPSample
    requires b == a[t := Raised(a[t], i, Count(h.c, |h.c| - 1, i))] && InHistory(h, nCol, b)
    requires forall j :: i < j < nCol ==> a[t].anEq[j] > 0
    requires Covered(h, nCol, a, i)
    ensures Covered(h, nCol, b, i - 1)
  {
    assert IsKept(h, nCol, a[t], i);
    forall j: nat | i - 1 < j < nCol - 1 && NeedsCover(nCol, b, j) ensures HasCover(h, nCol, b, j) {
      if j == i {
        assert Open(h.c, RowOf(b[t]), j);
      } else {
        var k :| 0 <= k < |b| && !b[k].isPSample && b[k].anEq[j] == 0;
        assert k != t && NeedsCover(nCol, a, j);
        assert HasCover(h, nCol, a, j);
        var u :| 0 <= u < |a| && Open(h.c, RowOf(a[u]), j) && (a[u].isPSample || a[u].iCol <= j);
        assert Open(h.c, RowOf(b[u]), j);
      }
    }
  }

  lemma UpgradeOk(h: History, p: Accum, i: nat, t: nat)
    requires Flushed(h, p, i) && i < p.nCol - 1
    requires !PeriodicOpen(p.a, p.nCol, i)
    requires t == Candidate(p.a, p.nCol, i, 0)
    ensures var q := FindNewMin(Upgrade(Offered(p, i), t, i, Offer(p, i).anEq[i]));
            && Mid(h, q, i - 1) && Covered(h, q.nCol, q.a, i - 1)
  {
    OfferedOk(h, p, i);
    OfferOk(h, p, i);
    UpgradeKnows(h, p, i, t);
    CandidateBest(p.a, p.nCol, i, 0);
    var q := Upgrade(Offered(p, i), t, i, Offer(p, i).anEq[i]);
    assert q.a == p.a[t := Raised(p.a[t], i, Count(h.c, |h.c| - 1, i))];
    UpgradedTable(h, p.nCol, p.a, p.nMaxEqZero, i, t);
    UpgradedCover(h, p.nCol, p.a, q.a, i, t);
    NumPeriodicSame(p.a, q.a);
    FindNewMinOk(h, q, i - 1);
  }

  // ---- An addition ----

  lemma AppendedTable(h: History, nCol: nat, a: seq<Sample>, z: Sample, bound: nat, i: int)
    requires IsHistory(h, nCol) && Table(h, nCol, a, bound, i)
    requires IsKept(h, nCol, z, i) && forall k :: 0 <= k < |a| ==> RowOf(a[k]) < RowOf(z)
    requires forall j :: bound <= j < nCol ==> z.anEq[j] > 0
    ensures Table(h, nCol, a + [z], bound, i)
  {
  }

  lemma WithoutTable(h: History, nCol: nat, a: seq<Sample>, m: nat, bound: nat, i: int)
    requires IsHistory(h, nCol) && Table(h, nCol, a, bound, i) && m < |a|
    ensures Table(h, nCol, Without(a, m), bound, i)
    ensures forall s :: s in Without(a, m) ==> s in a
  {
    var b := Without(a, m);
    forall k | 0 <= k < |b| ensures b[k] == a[if k < m then k else k + 1] {}
  }

  function Kept(p: Accum): seq<Sample>
    requires IsAccum(p) && CanEvict(p)
  {
    if |p.a| >= p.mxSample then Without(p.a, p.iMin) else p.a
  }

  /** Adding a sample of a later row than all others, after making room when the array is full. */
  lemma AppendOk(h: History, p: Accum, s: Sample, n: nat, i: int)
    requires Samples(h, p, i) && NumPeriodic(p.a) + (if s.isPSample then 1 else 0) < p.mxSample
    requires IsSample(s, p.nCol) && n <= p.nCol && IsKept(h, p.nCol, Zeroed(s, n), i)
    requires forall j :: p.nMaxEqZero <= j < p.nCol ==> Zeroed(s, n).anEq[j] > 0
    requires forall t :: t in p.a ==> RowOf(t) < RowOf(s)
    ensures var q := FindNewMin(Append(p, s, n));
            && Samples(h, q, i) && q == p.(a := q.a, iMin := q.iMin)
            && q.a == Kept(p) + [Zeroed(s, n)]
            && NumPeriodic(q.a) == NumPeriodic(p.a) + (if s.isPSample then 1 else 0)
  {
    var z := Zeroed(s, n);
    var kept := Kept(p);
    if |p.a| >= p.mxSample {
      NumPeriodicWithout(p.a, p.iMin);
      WithoutTable(h, p.nCol, p.a, p.iMin, p.nMaxEqZero, i);
    }
    NumPeriodicAppend(kept, z);
    AppendedTable(h, p.nCol, kept, z, p.nMaxEqZero, i);
    FindNewMinOk(h, Append(p, s, n), i);
  }

  /** No sample shares column i's run, so every sample's row lies before that run. */
  lemma NoneOpen(h: History, p: Accum, i: nat)
    requires Mid(h, p, i) && i < p.nCol - 1
    requires !PeriodicOpen(p.a, p.nCol, i) && Candidate(p.a, p.nCol, i, 0) < 0
    ensures forall t :: t in p.a ==> IsKept(h, p.nCol, t, i) && !Open(h.c, RowOf(t), i)
  {
    CandidateBest(p.a, p.nCol, i, 0);
    forall k | 0 <= k < |p.a| ensures !Open(h.c, RowOf(p.a[k]), i) {
      assert IsKept(h, p.nCol, p.a[k], i);
    }
  }

  /** The offer, its leading counts left open, is a sample like the others. */
  lemma OfferKept(h: History, p: Accum, i: nat)
    requires IsAccum(p) && IsHistory(h, p.nCol) && CurrentOk(h, p.nCol, p.current) && AllBest(h, p.nCol, p.aBest)
    requires i < p.nCol - 1
    ensures IsKept(h, p.nCol, Zeroed(Offer(p, i), i), i - 1)
    ensures forall j :: i <= j < p.nCol ==> Zeroed(Offer(p, i), i).anEq[j] > 0
  {
    OfferOk(h, p, i);
    var z := Zeroed(Offer(p, i), i);
    forall j | 0 <= j < i ensures Open(h.c, RowOf(z), j) {
      Nested(h.c, |h.c| - 1, j, i);
    }
  }

  /** Unknown counts past column i need an open run of column i, so none is left when none is open. */
  lemma NothingToCover(h: History, nCol: nat, a: seq<Sample>, z: Sample, i: nat)
    requires IsHistory(h, nCol) && nCol > 0 && i < nCol - 1
    requires forall t :: t in a ==> IsKept(h, nCol, t, i) && !Open(h.c, RowOf(t), i)
    requires IsKept(h, nCol, z, i - 1) && forall j :: i <= j < nCol ==> z.anEq[j] > 0
    requires InHistory(h, nCol, a + [z])
    ensures Covered(h, nCol, a + [z], i - 1)
  {
    forall j: nat | i - 1 < j < nCol - 1 ensures !NeedsCover(nCol, a + [z], j) {
      Nested(h.c, |h.c| - 1, i, j);
      forall k | 0 <= k < |a| ensures (a + [z])[k].anEq[j] != 0 {
        assert a[k] in a;
      }
    }
  }

  lemma OfferLater(h: History, p: Accum, i: nat, a: seq<Sample>)
    requires IsAccum(p) && IsHistory(h, p.nCol) && CurrentOk(h, p.nCol, p.current) && AllBest(h, p.nCol, p.aBest)
    requires i < p.nCol - 1
    requires forall t :: t in a ==> IsKept(h, p.nCol, t, i) && !Open(h.c, RowOf(t), i)
    ensures forall t :: t in a ==> |t.anLt| > 0 && RowOf(t) < RowOf(Offer(p, i))
  {
    OfferOk(h, p, i);
  }

  lemma KeptMembers(h: History, p: Accum, i: int)
    requires Samples(h, p, i)
    ensures CanEvict(p) && forall t :: t in Kept(p) ==> t in p.a
  {
    if |p.a| >= p.mxSample { WithoutTable(h, p.nCol, p.a, p.iMin, p.nMaxEqZero, i); }
  }

  /** The offer is appended to the samples that stay. */
  lemma OfferAppended(h: History, p: Accum, i: nat)
    requires Mid(h, p, i) && i < p.nCol - 1 && p.nMaxEqZero >= i
    requires !PeriodicOpen(p.a, p.nCol, i) && Candidate(p.a, p.nCol, i, 0) < 0
    ensures var m, z := Offered(p, i), Zeroed(Offer(p, i), i);
            CanEvict(m) && var q := FindNewMin(Append(m, Offer(p, i), i));
            Samples(h, q, i - 1) && q == m.(a := q.a, iMin := q.iMin) && q.a == Kept(m) + [z]
  {
    OfferedOk(h, p, i);
    var m, b := Offered(p, i), Offer(p, i);
    NoneOpen(h, p, i);
    OfferLater(h, p, i, p.a);
    OfferKept(h, p, i);
    assert !b.isPSample by { OfferOk(h, p, i); }
    KeptMembers(h, m, i);
    WeakerSamples(h, m, i);
    AppendOk(h, m, b, i, i - 1);
  }

  lemma InsertOfferOk(h: History, p: Accum, i: nat)
    requires Mid(h, p, i) && i < p.nCol - 1
    requires !PeriodicOpen(p.a, p.nCol, i) && Candidate(p.a, p.nCol, i, 0) < 0
    requires p.nMaxEqZero >= i
    ensures var q := FindNewMin(Append(Offered(p, i), Offer(p, i), i));
            && Mid(h, q, i - 1) && Covered(h, q.nCol, q.a, i - 1)
  {
    OfferAppended(h, p, i);
    OfferedOk(h, p, i);
    NoneOpen(h, p, i);
    OfferKept(h, p, i);
    KeptMembers(h, Offered(p, i), i);
    NothingToCover(h, p.nCol, Kept(Offered(p, i)), Zeroed(Offer(p, i), i), i);
  }

  function Bounded(p: Accum, i: nat): (q: Accum)
    requires IsAccum(p)
    ensures IsAccum(q)
  {
    p.(nMaxEqZero := if i > p.nMaxEqZero then i else p.nMaxEqZero)
  }

  lemma PushBestCases(p: Accum, i: nat)
    requires IsAccum(p) && CanEvict(p) && i < p.nCol - 1 && Offer(p, i).iCol == i && !Offer(p, i).isPSample
    ensures var m, b := Bounded(p, i), Offer(p, i);
            PushBest(p, i) ==
            if |p.a| == p.mxSample && !Better(b, p.a[p.iMin]) then Offered(p, i)
            else if PeriodicOpen(p.a, p.nCol, i) then Offered(m, i)
            else if Candidate(p.a, p.nCol, i, 0) >= 0 then
              FindNewMin(Upgrade(Offered(m, i), Candidate(p.a, p.nCol, i, 0), i, b.anEq[i]))
            else FindNewMin(Append(Offered(m, i), b, i))
  {
    assert Offered(Bounded(p, i), i) == Bounded(Offered(p, i), i);
  }

  lemma BoundedOk(h: History, p: Accum, i: nat)
    requires Mid(h, p, i) && i < p.nCol
    ensures Mid(h, Bounded(p, i), i) && Offer(Bounded(p, i), i) == Offer(p, i)
  {
  }

  lemma SharedOk(h: History, p: Accum, i: nat)
    requires Flushed(h, p, i) && i < p.nCol - 1
    requires PeriodicOpen(p.a, p.nCol, i)
    ensures Flushed(h, Offered(p, i), i - 1)
  {
    OfferedOk(h, p, i);
    WeakerKept(h, p.nCol, p.a, i);
    CoveredNext(h, p.nCol, p.a, i);
  }

  lemma AcceptOk(h: History, m: Accum, i: nat)
    requires Flushed(h, m, i) && i < m.nCol - 1 && i <= m.nMaxEqZero
    ensures var k := Candidate(m.a, m.nCol, i, 0);
            var b := Offer(m, i);
            Flushed(h, if PeriodicOpen(m.a, m.nCol, i) then Offered(m, i)
                          else if k >= 0 then FindNewMin(Upgrade(Offered(m, i), k, i, b.anEq[i]))
                          else FindNewMin(Append(Offered(m, i), b, i)), i - 1)
  {
    if PeriodicOpen(m.a, m.nCol, i) {
      SharedOk(h, m, i);
    } else if Candidate(m.a, m.nCol, i, 0) >= 0 {
      UpgradeOk(h, m, i, Candidate(m.a, m.nCol, i, 0));
    } else {
      InsertOfferOk(h, m, i);
    }
  }

  /** One column of a flush. */
  lemma PushBestOk(h: History, p: Accum, i: nat)
    requires Flushed(h, p, i) && i < p.nCol - 1
    ensures Flushed(h, PushBest(p, i), i - 1)
  {
    assert Offer(p, i).iCol == i && !Offer(p, i).isPSample by { OfferOk(h, p, i); }
    PushBestCases(p, i);
    if |p.a| == p.mxSample && !Better(Offer(p, i), p.a[p.iMin]) {
      RejectOk(h, p, i);
    } else {
      BoundedOk(h, p, i);
      AcceptOk(h, Bounded(p, i), i);
    }
  }
}
