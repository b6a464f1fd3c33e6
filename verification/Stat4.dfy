/**
 The STAT4 sampler as a function of its state: one transition per row of the scan and one
 flush at the end. The class in Stat4Accum.dfy is proved to take exactly these transitions.
 */
module Stat4 {
  import opened Division
  import Lex
  import opened Scan

  /** One sample. Its counts cover all nCol columns; anEq[j] == 0 means "not known yet". */
  datatype Sample = Sample(
    anEq: seq<nat>, anLt: seq<nat>, anDLt: seq<nat>,
    rowid: int, isPSample: bool, iCol: nat, iHash: nat)

  datatype Accum = Accum(
    nEst: nat, nCol: nat, mxSample: nat, nPSample: nat,
    nRow: nat, iPrn: nat, current: Sample,
    aBest: seq<Sample>, a: seq<Sample>, iMin: int, nMaxEqZero: nat)

  predicate IsSample(s: Sample, nCol: nat) {
    |s.anEq| == nCol && |s.anLt| == nCol && |s.anDLt| == nCol && s.iCol < nCol
  }

  predicate AreSamples(a: seq<Sample>, nCol: nat) {
    forall k :: 0 <= k < |a| ==> IsSample(a[k], nCol)
  }

  predicate IsAccum(p: Accum) {
    && p.nCol > 0 && p.mxSample > 0 && p.nPSample > 0
    && IsSample(p.current, p.nCol)
    && |p.aBest| == p.nCol && AreSamples(p.aBest, p.nCol)
    && |p.a| <= p.mxSample && AreSamples(p.a, p.nCol)
  }

  // ---- Which sample is preferred ----

  /** What decides between two samples chosen for the same column. */
  function Tail(s: Sample): seq<int>
    requires s.iCol < |s.anEq|
  {
    s.anEq[s.iCol + 1..] + [s.iHash]
  }

  /** More rows in the chosen column's run first, then an earlier column, then the tail. */
  function Score(s: Sample): seq<int>
    requires s.iCol < |s.anEq|
  {
    var count: int, column: int := s.anEq[s.iCol], s.iCol;
    [count, -column] + Tail(s)
  }

  predicate Better(s: Sample, t: Sample)
    requires s.iCol < |s.anEq| && t.iCol < |t.anEq|
  {
    Lex.Less(Score(t), Score(s))
  }

  predicate BetterPost(s: Sample, t: Sample)
    requires s.iCol < |s.anEq| && t.iCol < |t.anEq|
  {
    Lex.Less(Tail(t), Tail(s))
  }

  /** An existing periodic sample shares the run of column col that is being scanned. */
  predicate PeriodicOpen(a: seq<Sample>, nCol: nat, col: nat)
    requires col < nCol && AreSamples(a, nCol)
  {
    exists k :: 0 <= k < |a| && a[k].anEq[col] == 0 && a[k].isPSample
  }

  /** The preferred sample with an unknown count of column col, from index lo on; -1 if there is none. */
  function Candidate(a: seq<Sample>, nCol: nat, col: nat, lo: nat): (i: int)
    requires col < nCol && lo <= |a| && AreSamples(a, nCol)
    ensures i == -1 || lo <= i < |a|
    decreases |a| - lo
  {
    if lo == |a| then -1
    else
      var i := Candidate(a, nCol, col, lo + 1);
      if a[lo].anEq[col] == 0 && (i < 0 || Better(a[lo], a[i])) then lo else i
  }

  /** The least preferred of the first n samples that are not periodic; -1 if all are. */
  function Worst(a: seq<Sample>, nCol: nat, n: nat): (i: int)
    requires n <= |a| && AreSamples(a, nCol)
    ensures -1 <= i < n
  {
    if n == 0 then -1
    else
      var i := Worst(a, nCol, n - 1);
      if !a[n - 1].isPSample && (i < 0 || Better(a[i], a[n - 1])) then n - 1 else i
  }

  // ---- Transitions ----

  function FindNewMin(p: Accum): (q: Accum)
    requires IsAccum(p)
    ensures IsAccum(q)
  {
    if |p.a| >= p.mxSample then p.(iMin := Worst(p.a, p.nCol, |p.a|)) else p
  }

  function Zeroed(s: Sample, n: nat): (t: Sample)
    requires n <= |s.anEq|
    ensures |t.anEq| == |s.anEq|
  {
    s.(anEq := seq(|s.anEq|, j requires 0 <= j < |s.anEq| => if j < n then 0 else s.anEq[j]))
  }

  function Upgrade(p: Accum, k: nat, col: nat, count: nat): (q: Accum)
    requires IsAccum(p) && k < |p.a| && col < p.nCol
    ensures IsAccum(q)
  {
    p.(a := p.a[k := p.a[k].(iCol := col, anEq := p.a[k].anEq[col := count])])
  }

  function Without(a: seq<Sample>, k: nat): seq<Sample>
    requires k < |a|
  {
    a[..k] + a[k + 1..]
  }

  predicate CanEvict(p: Accum) {
    |p.a| >= p.mxSample ==> 0 <= p.iMin < |p.a| && !p.a[p.iMin].isPSample
  }

  function Append(p: Accum, s: Sample, nEqZero: nat): (q: Accum)
    requires IsAccum(p) && CanEvict(p) && IsSample(s, p.nCol) && nEqZero <= p.nCol
    ensures IsAccum(q)
  {
    var kept := if |p.a| >= p.mxSample then Without(p.a, p.iMin) else p.a;
    p.(a := kept + [Zeroed(s, nEqZero)])
  }

  /** Adds a sample, or upgrades one that shares its run; the first nEqZero counts are left open. */
  function Insert(p: Accum, s: Sample, nEqZero: nat): (q: Accum)
    requires IsAccum(p) && CanEvict(p) && IsSample(s, p.nCol) && nEqZero <= p.nCol
    ensures IsAccum(q)
  {
    var p1 := p.(nMaxEqZero := if nEqZero > p.nMaxEqZero then nEqZero else p.nMaxEqZero);
    if !s.isPSample && PeriodicOpen(p.a, p.nCol, s.iCol) then p1
    else
      var k := if s.isPSample then -1 else Candidate(p.a, p.nCol, s.iCol, 0);
      if k >= 0 then FindNewMin(Upgrade(p1, k, s.iCol, s.anEq[s.iCol]))
      else FindNewMin(Append(p1, s, nEqZero))
  }

  /** The run of column i ends: aBest[i] gets its count and competes for a place. */
  function PushBest(p: Accum, i: nat): (q: Accum)
    requires IsAccum(p) && CanEvict(p) && i < p.nCol
    ensures IsAccum(q)
  {
    var b := p.aBest[i].(anEq := p.aBest[i].anEq[i := p.current.anEq[i]]);
    var p1 := p.(aBest := p.aBest[i := b]);
    if |p.a| < p.mxSample || Better(b, p.a[p.iMin]) then Insert(p1, b, i) else p1
  }

  /** Every unknown count of column lo or later takes the current one. */
  function Filled(s: Sample, cur: Sample, lo: nat): (t: Sample)
    requires |s.anEq| == |cur.anEq|
    ensures |t.anEq| == |s.anEq|
  {
    s.(anEq := seq(|s.anEq|, j requires 0 <= j < |s.anEq| =>
      if lo <= j && s.anEq[j] == 0 then cur.anEq[j] else s.anEq[j]))
  }

  function FillAll(p: Accum, iChng: nat): (q: Accum)
    requires IsAccum(p)
    ensures IsAccum(q)
  {
    if iChng < p.nMaxEqZero then
      p.(a := seq(|p.a|, k requires 0 <= k < |p.a| => Filled(p.a[k], p.current, iChng)),
         nMaxEqZero := iChng)
    else p
  }

  /** The current row's counts once a row differing from it first in column iChng has arrived. */
  function Advanced(cur: Sample, iChng: nat): (t: Sample)
    requires |cur.anLt| == |cur.anEq| && |cur.anDLt| == |cur.anEq|
    ensures |t.anEq| == |cur.anEq| && |t.anLt| == |cur.anEq| && |t.anDLt| == |cur.anEq|
  {
    var n := |cur.anEq|;
    cur.(
      anEq := seq(n, j requires 0 <= j < n => if j < iChng then cur.anEq[j] + 1 else 1),
      anLt := seq(n, j requires 0 <= j < n => if j < iChng then cur.anLt[j] else cur.anLt[j] + cur.anEq[j]),
      anDLt := seq(n, j requires 0 <= j < n => if j < iChng then cur.anDLt[j] else cur.anDLt[j] + 1))
  }

  function NextPrn(x: nat): nat {
    (x * 1103515245 + 12345) % 0x1_0000_0000
  }

  /** The tie-breaking hashes are those of the linear congruential generator with these constants, modulo 2^32. */
  lemma PrnIs(x: nat)
    ensures 0 <= NextPrn(x) < 0x1_0000_0000
    ensures (1103515245 * x + 12345 - NextPrn(x)) % 0x1_0000_0000 == 0
  {
    var y, m := x * 1103515245 + 12345, 0x1_0000_0000;
    assert y - NextPrn(x) == y / m * m + 0;
  }

  /** The row is recorded as the current one, whose counts are already up to date. */
  function Visit(p: Accum, rowid: int): (q: Accum)
    requires IsAccum(p)
    ensures IsAccum(q)
  {
    var prn := NextPrn(p.iPrn);
    p.(nRow := p.nRow + 1, iPrn := prn, current := p.current.(rowid := rowid, iHash := prn))
  }

  predicate IsPeriodic(nLt: nat, nPSample: nat)
    requires nPSample > 0
  {
    Quotient(nLt, nPSample) != Quotient(nLt + 1, nPSample)
  }

  function PushPeriodic(p: Accum): (q: Accum)
    requires IsAccum(p) && CanEvict(p)
    ensures IsAccum(q)
  {
    if IsPeriodic(p.current.anLt[p.nCol - 1], p.nPSample) then
      Insert(p, p.current.(isPSample := true, iCol := 0), p.nCol - 1)
        .(current := p.current.(iCol := 0, isPSample := false))
    else p
  }

  /** aBest[i] after the current row, whose change position is iChng, has been considered for it. */
  function Improved(best: Sample, cur: Sample, i: nat, iChng: nat): Sample
    requires i < |cur.anEq| && best.iCol < |best.anEq|
  {
    var s := cur.(iCol := i);
    if iChng <= i || BetterPost(s, best) then s else best
  }

  function UpdateBest(p: Accum, iChng: nat): (q: Accum)
    requires IsAccum(p)
    ensures IsAccum(q)
  {
    p.(aBest := seq(p.nCol, i requires 0 <= i < p.nCol =>
         if i < p.nCol - 1 then Improved(p.aBest[i], p.current, i, iChng) else p.aBest[i]),
       current := p.current.(iCol := if p.nCol > 1 then p.nCol - 2 else p.current.iCol))
  }

  // ---- Lemmas about the choices ----

  lemma {:induction false} CandidateBest(a: seq<Sample>, nCol: nat, col: nat, lo: nat)
    requires col < nCol && lo <= |a| && AreSamples(a, nCol)
    ensures var i := Candidate(a, nCol, col, lo);
            && (i >= 0 ==> a[i].anEq[col] == 0)
            && (forall k :: lo <= k < |a| && a[k].anEq[col] == 0 ==> i >= 0 && !Better(a[k], a[i]))
    decreases |a| - lo
  {
    if lo < |a| {
      CandidateBest(a, nCol, col, lo + 1);
      var i := Candidate(a, nCol, col, lo + 1);
      Lex.Irreflexive(Score(a[lo]));
      if a[lo].anEq[col] == 0 && i >= 0 && Better(a[lo], a[i]) {
        forall k | lo < k < |a| && a[k].anEq[col] == 0 ensures !Better(a[k], a[lo]) {
          if Better(a[k], a[lo]) { Lex.Transitive(Score(a[i]), Score(a[lo]), Score(a[k])); }
        }
      }
    }
  }

  lemma {:induction false} WorstIsWorst(a: seq<Sample>, nCol: nat, n: nat)
    requires n <= |a| && AreSamples(a, nCol)
    ensures var i := Worst(a, nCol, n);
            && (i >= 0 ==> !a[i].isPSample)
            && (forall k :: 0 <= k < n && !a[k].isPSample ==> i >= 0 && !Better(a[i], a[k]))
  {
    if n > 0 {
      WorstIsWorst(a, nCol, n - 1);
      var i, m := Worst(a, nCol, n - 1), n - 1;
      Lex.Irreflexive(Score(a[m]));
      if !a[m].isPSample && i >= 0 && Better(a[i], a[m]) {
        forall k | 0 <= k < m && !a[k].isPSample ensures !Better(a[m], a[k]) {
          if Better(a[m], a[k]) { Lex.Transitive(Score(a[k]), Score(a[m]), Score(a[i])); }
        }
      }
    }
  }

  /** How many samples are periodic. */
  function NumPeriodic(a: seq<Sample>): (n: nat)
    ensures n <= |a|
  {
    if a == [] then 0
    else NumPeriodic(a[..|a| - 1]) + (if a[|a| - 1].isPSample then 1 else 0)
  }

  lemma NumPeriodicAppend(a: seq<Sample>, s: Sample)
    ensures NumPeriodic(a + [s]) == NumPeriodic(a) + (if s.isPSample then 1 else 0)
  {
    assert (a + [s])[..|a|] == a;
  }

  lemma {:induction false} NumPeriodicSame(a: seq<Sample>, b: seq<Sample>)
    requires |a| == |b| && forall k :: 0 <= k < |a| ==> a[k].isPSample == b[k].isPSample
    ensures NumPeriodic(a) == NumPeriodic(b)
  {
    if a != [] { NumPeriodicSame(a[..|a| - 1], b[..|b| - 1]); }
  }

  lemma {:induction false} NumPeriodicWithout(a: seq<Sample>, k: nat)
    requires k < |a|
    ensures NumPeriodic(Without(a, k)) == NumPeriodic(a) - (if a[k].isPSample then 1 else 0)
  {
    var n := |a| - 1;
    if k == n {
      assert Without(a, k) == a[..n];
    } else {
      NumPeriodicWithout(a[..n], k);
      assert Without(a, k) == Without(a[..n], k) + [a[n]];
      NumPeriodicAppend(Without(a[..n], k), a[n]);
    }
  }

  lemma {:induction false} SomeNotPeriodic(a: seq<Sample>)
    requires NumPeriodic(a) < |a|
    ensures exists k :: 0 <= k < |a| && !a[k].isPSample
  {
    var n := |a| - 1;
    if a[n].isPSample {
      SomeNotPeriodic(a[..n]);
      var k :| 0 <= k < n && !a[..n][k].isPSample;
      assert !a[k].isPSample;
    }
  }

  // ---- Whole calls ----

  /** One sample in this many rows is periodic. */
  function Period(nEst: nat, mxSample: nat): (n: nat)
    ensures n > 0
  {
    Quotient(nEst, mxSample / 3 + 1) + 1
  }

  /** The period: one more than the announced rows divided by one more than a third of the places. */
  predicate IsPeriod(q: nat, nEst: nat, mxSample: nat) {
    q > 0 && (q - 1) * (mxSample / 3 + 1) <= nEst < q * (mxSample / 3 + 1)
  }

  lemma PeriodIs(nEst: nat, mxSample: nat)
    ensures IsPeriod(Period(nEst, mxSample), nEst, mxSample)
  {
    var d := mxSample / 3 + 1;
    QuotientBounds(nEst, d);
    assert (Quotient(nEst, d) + 1) * d == d * Quotient(nEst, d) + d;
  }

  /** The periodic samples among the first n rows have been taken, and an eviction is always possible. */
  predicate Sound(p: Accum, n: nat) {
    && IsAccum(p) && CanEvict(p) && p.nPSample == Period(p.nEst, p.mxSample)
    && !p.current.isPSample && (forall i :: 0 <= i < p.nCol ==> !p.aBest[i].isPSample && p.aBest[i].iCol == i)
    && NumPeriodic(p.a) <= Quotient(n, p.nPSample) && n <= p.nEst
  }

  /** Between calls, as long as no more rows are pushed than were announced. */
  predicate Ready(p: Accum) {
    Sound(p, p.nRow) && RowCounter(p.current, p.nRow)
  }

  /** Rows differ on all columns, so the last column's runs are single rows and number them. */
  predicate RowCounter(cur: Sample, nRow: nat)
    requires |cur.anLt| == |cur.anEq| > 0
  {
    var last := |cur.anEq| - 1;
    cur.anLt[last] + (if nRow == 0 then 0 else cur.anEq[last]) == nRow && (nRow > 0 ==> cur.anEq[last] == 1)
  }

  /** At most a third of the places go to periodic samples, so an eviction victim always exists. */
  lemma PeriodicFew(nEst: nat, mxSample: nat, n: nat)
    requires mxSample > 0 && n <= nEst
    ensures Quotient(n, Period(nEst, mxSample)) <= mxSample / 3 < mxSample
  {
    var third, q := mxSample / 3 + 1, Quotient(nEst, mxSample / 3 + 1);
    QuotientBounds(nEst, third);
    assert (q + 1) * third == third * q + third;
    QuotientBelow(n, q + 1, third);
  }

  lemma FindNewMinReady(p: Accum)
    requires IsAccum(p) && NumPeriodic(p.a) < p.mxSample
    ensures CanEvict(FindNewMin(p))
  {
    if |p.a| == p.mxSample {
      SomeNotPeriodic(p.a);
      WorstIsWorst(p.a, p.nCol, |p.a|);
    }
  }

  lemma UpgradeReady(p: Accum, k: nat, col: nat, count: nat)
    requires IsAccum(p) && k < |p.a| && col < p.nCol && NumPeriodic(p.a) < p.mxSample
    ensures var q := FindNewMin(Upgrade(p, k, col, count));
            && CanEvict(q) && NumPeriodic(q.a) == NumPeriodic(p.a)
            && q == p.(a := q.a, iMin := q.iMin)
  {
    var q := Upgrade(p, k, col, count);
    NumPeriodicSame(p.a, q.a);
    FindNewMinReady(q);
  }

  lemma AppendReady(p: Accum, s: Sample, n: nat)
    requires IsAccum(p) && CanEvict(p) && IsSample(s, p.nCol) && n <= p.nCol
    requires NumPeriodic(p.a) + (if s.isPSample then 1 else 0) < p.mxSample
    ensures var q := FindNewMin(Append(p, s, n));
            && CanEvict(q) && NumPeriodic(q.a) <= NumPeriodic(p.a) + (if s.isPSample then 1 else 0)
            && q == p.(a := q.a, iMin := q.iMin)
  {
    var kept := if |p.a| >= p.mxSample then Without(p.a, p.iMin) else p.a;
    if |p.a| >= p.mxSample { NumPeriodicWithout(p.a, p.iMin); }
    NumPeriodicAppend(kept, Zeroed(s, n));
    FindNewMinReady(Append(p, s, n));
  }

  lemma InsertReady(p: Accum, s: Sample, nEqZero: nat)
    requires IsAccum(p) && CanEvict(p) && IsSample(s, p.nCol) && nEqZero <= p.nCol
    requires NumPeriodic(p.a) + (if s.isPSample then 1 else 0) < p.mxSample
    ensures var q := Insert(p, s, nEqZero);
            && CanEvict(q) && NumPeriodic(q.a) <= NumPeriodic(p.a) + (if s.isPSample then 1 else 0)
            && q == p.(a := q.a, iMin := q.iMin, nMaxEqZero := q.nMaxEqZero)
  {
    var p1 := p.(nMaxEqZero := if nEqZero > p.nMaxEqZero then nEqZero else p.nMaxEqZero);
    if s.isPSample || !PeriodicOpen(p.a, p.nCol, s.iCol) {
      var k := if s.isPSample then -1 else Candidate(p.a, p.nCol, s.iCol, 0);
      if k >= 0 {
        UpgradeReady(p1, k, s.iCol, s.anEq[s.iCol]);
      } else {
        AppendReady(p1, s, nEqZero);
      }
    }
  }

  lemma PushBestReady(p: Accum, i: nat)
    requires Sound(p, p.nRow) && i < p.nCol
    ensures var q := PushBest(p, i);
            Sound(q, p.nRow) && q == p.(aBest := q.aBest, a := q.a, iMin := q.iMin, nMaxEqZero := q.nMaxEqZero)
  {
    var b := p.aBest[i].(anEq := p.aBest[i].anEq[i := p.current.anEq[i]]);
    PeriodicFew(p.nEst, p.mxSample, p.nRow);
    InsertReady(p.(aBest := p.aBest[i := b]), b, i);
  }

  /** The runs of columns i down to iChng end. */
  function PushDown(p: Accum, i: int, iChng: nat): (q: Accum)
    requires Sound(p, p.nRow) && i < p.nCol
    ensures Sound(q, p.nRow) && q == p.(aBest := q.aBest, a := q.a, iMin := q.iMin, nMaxEqZero := q.nMaxEqZero)
    decreases i
  {
    if i < iChng then p
    else
      PushBestReady(p, i);
      PushDown(PushBest(p, i), i - 1, iChng)
  }

  lemma PushDownStep(p: Accum, i: nat, iChng: nat)
    requires Sound(p, p.nRow) && iChng <= i < p.nCol
    ensures Sound(PushBest(p, i), p.nRow) && PushBest(p, i).nRow == p.nRow && PushBest(p, i).nCol == p.nCol
    ensures PushDown(p, i, iChng) == PushDown(PushBest(p, i), i - 1, iChng)
  {
    PushBestReady(p, i);
  }

  /** The flush: every run of columns iChng and later ends. */
  function PushPrevious(p: Accum, iChng: nat): (q: Accum)
    requires Sound(p, p.nRow)
    ensures Sound(q, p.nRow) && q == p.(aBest := q.aBest, a := q.a, iMin := q.iMin, nMaxEqZero := q.nMaxEqZero)
  {
    var p1 := PushDown(p, p.nCol - 2, iChng);
    NumPeriodicSame(p1.a, FillAll(p1, iChng).a);
    FillAll(p1, iChng)
  }

  function FirstRow(cur: Sample): (t: Sample)
    ensures |t.anEq| == |cur.anEq|
  {
    cur.(anEq := seq(|cur.anEq|, j => 1))
  }

  /** The counts brought up to date for the row that has just arrived. */
  function Counts(p: Accum, iChng: nat): (q: Accum)
    requires Ready(p) && iChng < p.nCol
    ensures Sound(q, p.nRow) && q.nRow == p.nRow && q.nEst == p.nEst && q.nCol == p.nCol && q.mxSample == p.mxSample
    ensures RowCounter(q.current, p.nRow + 1)
  {
    if p.nRow == 0 then p.(current := FirstRow(p.current))
    else
      var p1 := PushPrevious(p, iChng);
      p1.(current := Advanced(p1.current, iChng))
  }

  lemma PushPeriodicReady(p: Accum)
    requires 0 < p.nRow <= p.nEst && Sound(p, p.nRow - 1) && RowCounter(p.current, p.nRow)
    ensures var q := PushPeriodic(p);
            Ready(q) && q.nRow == p.nRow && q.nEst == p.nEst && q.nCol == p.nCol && q.mxSample == p.mxSample
  {
    PeriodicFew(p.nEst, p.mxSample, p.nRow);
    QuotientStep(p.nRow - 1, p.nPSample);
    var s := p.current.(isPSample := true, iCol := 0);
    if IsPeriodic(p.nRow - 1, p.nPSample) {
      InsertReady(p, s, p.nCol - 1);
      assert PushPeriodic(p) == Insert(p, s, p.nCol - 1).(current := p.current.(iCol := 0, isPSample := false));
    }
  }

  lemma UpdateBestReady(p: Accum, iChng: nat)
    requires Ready(p)
    ensures Ready(UpdateBest(p, iChng))
  {
  }

  /** The new row with its counts, before it is considered as a sample. */
  function Arrived(p: Accum, iChng: nat, rowid: int): (q: Accum)
    requires Ready(p) && iChng < p.nCol
    ensures Sound(q, p.nRow) && q.nRow == p.nRow + 1 && q.nEst == p.nEst && q.nCol == p.nCol && q.mxSample == p.mxSample
    ensures RowCounter(q.current, q.nRow)
  {
    Visit(Counts(p, iChng), rowid)
  }

  /** One row of the scan: iChng is the first column where it differs from the row before it. */
  function StatPush(p: Accum, iChng: nat, rowid: int): (q: Accum)
    requires Ready(p) && p.nRow < p.nEst && iChng < p.nCol
    ensures Ready(q) && q.nRow == p.nRow + 1 && q.nEst == p.nEst && q.nCol == p.nCol && q.mxSample == p.mxSample
  {
    var p1 := Arrived(p, iChng, rowid);
    PushPeriodicReady(p1);
    UpdateBestReady(PushPeriodic(p1), iChng);
    UpdateBest(PushPeriodic(p1), iChng)
  }

  /** The state that stat_init leaves for nCol columns and an announced number of rows. */
  function Init(nEst: nat, nCol: nat, mxSample: nat, seed: nat): (p: Accum)
    requires nCol > 0 && mxSample > 0
    ensures Ready(p) && p.nRow == 0 && p.nEst == nEst && p.nCol == nCol && p.mxSample == mxSample
  {
    var zeros := seq(nCol, j => 0);
    var blank := Sample(zeros, zeros, zeros, 0, false, 0, 0);
    Accum(nEst, nCol, mxSample, Period(nEst, mxSample), 0, seed, blank,
          seq(nCol, i requires 0 <= i < nCol => blank.(iCol := i)), [], 0, 0)
  }

  /** The state after a scan with the given change positions and rowids. */
  function Run(p: Accum, c: seq<nat>, ids: seq<int>): (q: Accum)
    requires Ready(p) && |c| == |ids| && p.nRow + |c| <= p.nEst && IsChanges(c, p.nCol)
    ensures Ready(q) && q.nRow == p.nRow + |c| && q.nEst == p.nEst && q.nCol == p.nCol && q.mxSample == p.mxSample
  {
    if c == [] then p
    else
      var n := |c| - 1;
      StatPush(Run(p, c[..n], ids[..n]), c[n], ids[n])
  }
}
