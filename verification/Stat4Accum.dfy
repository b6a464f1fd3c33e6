/** The STAT4 accumulator as the source keeps it: fields and arrays that every row updates in place. */
module Stat4Accum {
  import opened Division
  import Lex
  import opened Stat4

  /** Is pNew to be preferred over pOld, both chosen for the same column? */
  method SampleIsBetterPost(nCol: nat, pNew: Sample, pOld: Sample) returns (better: bool)
    requires IsSample(pNew, nCol) && IsSample(pOld, nCol) && pNew.iCol == pOld.iCol
    ensures better == BetterPost(pNew, pOld)
  {
    var i := pNew.iCol + 1;
    ghost var s, t := Tail(pNew), Tail(pOld);
    while i < nCol
      invariant pNew.iCol < i <= nCol
      invariant s[..i - pNew.iCol - 1] == t[..i - pNew.iCol - 1]
    {
      if pNew.anEq[i] > pOld.anEq[i] {
        Lex.LessAt(t, s, i - pNew.iCol - 1);
        return true;
      }
      if pNew.anEq[i] < pOld.anEq[i] {
        Lex.LessAt(s, t, i - pNew.iCol - 1);
        Lex.Asymmetric(s, t);
        return false;
      }
      i := i + 1;
    }
    Lex.FirstDiffUnique(t, s, if pNew.iHash == pOld.iHash then |s| else |s| - 1);
    return pNew.iHash > pOld.iHash;
  }

  method SampleIsBetter(nCol: nat, pNew: Sample, pOld: Sample) returns (better: bool)
    requires IsSample(pNew, nCol) && IsSample(pOld, nCol)
    requires !pNew.isPSample && !pOld.isPSample
    ensures better == Better(pNew, pOld)
  {
    var nEqNew, nEqOld := pNew.anEq[pNew.iCol], pOld.anEq[pOld.iCol];
    ScoreOrder(nCol, pNew, pOld);
    if nEqNew > nEqOld { return true; }
    if nEqNew == nEqOld {
      if pNew.iCol < pOld.iCol { return true; }
      if pNew.iCol == pOld.iCol {
        better := SampleIsBetterPost(nCol, pNew, pOld);
        return;
      }
    }
    return false;
  }

  /** Score compares the count, then the column, then the tail. */
  lemma ScoreOrder(nCol: nat, s: Sample, t: Sample)
    requires IsSample(s, nCol) && IsSample(t, nCol)
    ensures Better(s, t) <==>
      || s.anEq[s.iCol] > t.anEq[t.iCol]
      || (s.anEq[s.iCol] == t.anEq[t.iCol] && s.iCol < t.iCol)
      || (s.anEq[s.iCol] == t.anEq[t.iCol] && s.iCol == t.iCol && BetterPost(s, t))
  {
    var x, y := Score(t), Score(s);
    if s.anEq[s.iCol] != t.anEq[t.iCol] {
      Lex.FirstDiffUnique(x, y, 0);
    } else if s.iCol != t.iCol {
      assert x[..1] == y[..1];
      Lex.FirstDiffUnique(x, y, 1);
    } else {
      var d := Lex.FirstDiff(Tail(t), Tail(s));
      assert x[..2] == y[..2];
      assert x[..d + 2] == x[..2] + Tail(t)[..d] && y[..d + 2] == y[..2] + Tail(s)[..d];
      assert forall k :: 2 <= k < |x| ==> x[k] == Tail(t)[k - 2] && y[k] == Tail(s)[k - 2];
      Lex.FirstDiffUnique(x, y, d + 2);
    }
  }

  /** The first later column with another count decides, for the larger count; if there is none, the larger hash. */
  predicate IsPreferredPost(nCol: nat, s: Sample, t: Sample)
    requires IsSample(s, nCol) && IsSample(t, nCol)
  {
    || (exists i :: s.iCol < i < nCol && s.anEq[i] > t.anEq[i] && forall k :: s.iCol < k < i ==> s.anEq[k] == t.anEq[k])
    || (s.iHash > t.iHash && forall k :: s.iCol < k < nCol ==> s.anEq[k] == t.anEq[k])
  }

  lemma FirstDecides(nCol: nat, s: Sample, t: Sample, i: nat)
    requires IsSample(s, nCol) && IsSample(t, nCol) && s.iCol < i < nCol
    requires forall k :: s.iCol < k < i ==> s.anEq[k] == t.anEq[k]
    ensures s.anEq[i] > t.anEq[i] ==> IsPreferredPost(nCol, s, t)
    ensures s.anEq[i] < t.anEq[i] ==> !IsPreferredPost(nCol, s, t)
  {
  }

  /** The larger count in the column that each was chosen for; then the earlier column; then as above. */
  predicate IsPreferred(nCol: nat, s: Sample, t: Sample)
    requires IsSample(s, nCol) && IsSample(t, nCol)
  {
    || s.anEq[s.iCol] > t.anEq[t.iCol]
    || (s.anEq[s.iCol] == t.anEq[t.iCol]
        && (s.iCol < t.iCol || (s.iCol == t.iCol && IsPreferredPost(nCol, s, t))))
  }

  /** What the two comparisons mean. */
  lemma BetterPostIs(nCol: nat, s: Sample, t: Sample)
    requires IsSample(s, nCol) && IsSample(t, nCol) && s.iCol == t.iCol
    ensures BetterPost(s, t) <==> IsPreferredPost(nCol, s, t)
  {
    var x, y := Tail(t), Tail(s);
    var d := Lex.FirstDiff(x, y);
    forall k | s.iCol < k < nCol && k < s.iCol + 1 + d ensures s.anEq[k] == t.anEq[k] {
      assert x[..d][k - s.iCol - 1] == y[..d][k - s.iCol - 1];
    }
    var i := s.iCol + 1 + d;
    if i < nCol {
      assert x[d] == t.anEq[i] && y[d] == s.anEq[i];
      FirstDecides(nCol, s, t, i);
    } else {
      assert forall k :: s.iCol < k < nCol ==> s.anEq[k] == t.anEq[k];
      assert d < |x| ==> x[d] == t.iHash && y[d] == s.iHash;
      assert d == |x| ==> x[|x| - 1] == x[..d][|x| - 1] == y[..d][|x| - 1] == y[|x| - 1];
    }
  }

  lemma BetterIs(nCol: nat, s: Sample, t: Sample)
    requires IsSample(s, nCol) && IsSample(t, nCol)
    ensures Better(s, t) <==> IsPreferred(nCol, s, t)
  {
    ScoreOrder(nCol, s, t);
    if s.iCol == t.iCol { BetterPostIs(nCol, s, t); }
  }

  class StatAccum {
    const nEst: nat
    const nCol: nat
    const mxSample: nat
    const nPSample: nat
    var nRow: nat
    var iPrn: nat
    var current: Sample
    const aBest: array<Sample>
    const a: array<Sample>
    var iMin: int
    var nSample: nat
    var nMaxEqZero: nat

    ghost predicate Valid()
      reads this, aBest, a
    {
      && a != aBest && a.Length == mxSample && aBest.Length == nCol && nSample <= mxSample
      && IsAccum(State())
    }

    ghost function State(): Accum
      requires nSample <= a.Length
      reads this, aBest, a
    {
      Accum(nEst, nCol, mxSample, nPSample, nRow, iPrn, current, aBest[..], a[..nSample], iMin, nMaxEqZero)
    }

    constructor (nCol: nat, nEst: nat, mxSample: nat, seed: nat)
      requires nCol > 0 && mxSample > 0
      ensures Valid() && fresh(a) && fresh(aBest)
      ensures State() == Init(nEst, nCol, mxSample, seed)
      ensures IsPeriod(nPSample, nEst, mxSample)
    {
      PeriodIs(nEst, mxSample);
      this.nEst, this.nCol, this.mxSample := nEst, nCol, mxSample;
      nPSample := Period(nEst, mxSample);
      nRow, iPrn, iMin, nSample, nMaxEqZero := 0, seed, 0, 0, 0;
      var zeros := seq(nCol, j => 0);
      var blank := Sample(zeros, zeros, zeros, 0, false, 0, 0);
      current := blank;
      a := new Sample[mxSample](_ => blank);
      aBest := new Sample[nCol](i requires 0 <= i < nCol => blank.(iCol := i));
      new;
      assert aBest[..] == Init(nEst, nCol, mxSample, seed).aBest;
    }

    /** Finds the existing sample to upgrade; shared tells that a periodic sample already has the run. */
    method FindUpgrade(pNew: Sample) returns (pUpgrade: int, shared: bool)
      requires Valid() && IsSample(pNew, nCol) && !pNew.isPSample
      ensures shared == PeriodicOpen(State().a, nCol, pNew.iCol)
      ensures !shared ==> pUpgrade == Candidate(State().a, nCol, pNew.iCol, 0)
    {
      ghost var s := State().a;
      pUpgrade, shared := -1, false;
      var i := nSample - 1;
      while i >= 0
        invariant -1 <= i < nSample
        invariant pUpgrade == Candidate(s, nCol, pNew.iCol, i + 1)
        invariant pUpgrade >= 0 ==> !s[pUpgrade].isPSample
        invariant forall k :: i < k < nSample && s[k].anEq[pNew.iCol] == 0 ==> !s[k].isPSample
        decreases i
      {
        var pOld := a[i];
        assert pOld == s[i];
        if pOld.anEq[pNew.iCol] == 0 {
          if pOld.isPSample { return -1, true; }
          if pUpgrade < 0 {
            pUpgrade := i;
          } else {
            var better := SampleIsBetter(nCol, pOld, a[pUpgrade]);
            if better { pUpgrade := i; }
          }
        }
        i := i - 1;
      }
    }

    method FindNewMinimum()
      requires Valid() && NumPeriodic(State().a) < mxSample
      modifies this`iMin
      ensures Valid() && State() == FindNewMin(old(State()))
    {
      if nSample >= mxSample {
        var iMin := -1;
        ghost var s := State().a;
        assert s == a[..mxSample];
        for i := 0 to mxSample
          invariant iMin == Worst(s, nCol, i)
          invariant iMin >= 0 ==> !s[iMin].isPSample
        {
          assert a[i] == s[i];
          if !a[i].isPSample {
            if iMin < 0 {
              iMin := i;
            } else {
              var better := SampleIsBetter(nCol, a[iMin], a[i]);
              if better { iMin := i; }
            }
          }
        }
        SomeNotPeriodic(s);
        WorstIsWorst(s, nCol, mxSample);
        assert iMin >= 0;
        this.iMin := iMin;
      }
    }

    /** Raises sample pUpgrade to the column of pNew, whose count it takes over. */
    method Raise(pUpgrade: nat, pNew: Sample)
      requires Valid() && pUpgrade < nSample && IsSample(pNew, nCol)
      modifies a
      ensures Valid() && State() == Upgrade(old(State()), pUpgrade, pNew.iCol, pNew.anEq[pNew.iCol])
      ensures NumPeriodic(State().a) == NumPeriodic(old(State()).a)
    {
      ghost var p := State();
      var i := pNew.iCol;
      a[pUpgrade] := a[pUpgrade].(iCol := i, anEq := a[pUpgrade].anEq[i := pNew.anEq[i]]);
      assert a[..nSample] == Upgrade(p, pUpgrade, i, pNew.anEq[i]).a;
      NumPeriodicSame(p.a, a[..nSample]);
    }

    /** Removes sample iMin when the array is full, and appends a copy of pNew. */
    method Replace(pNew: Sample, nEqZero: nat)
      requires Valid() && CanEvict(State()) && IsSample(pNew, nCol) && nEqZero <= nCol && mxSample > 0
      modifies this`nSample, a
      ensures Valid() && State() == Append(old(State()), pNew, nEqZero)
    {
      if nSample >= mxSample { Evict(); }
      AppendCopy(pNew, nEqZero);
    }

    /** The samples after iMin move down by one. */
    method Evict()
      requires Valid() && nSample == mxSample && 0 <= iMin < nSample
      modifies this`nSample, a
      ensures Valid() && State() == old(State()).(a := Without(old(State()).a, iMin)) && nSample < mxSample
    {
      ghost var s := State().a;
      forall k | iMin <= k < nSample - 1 { a[k] := a[k + 1]; }
      nSample := mxSample - 1;
      assert a[..nSample] == Without(s, iMin);
    }

    method AppendCopy(pNew: Sample, nEqZero: nat)
      requires Valid() && nSample < mxSample && IsSample(pNew, nCol) && nEqZero <= nCol
      modifies this`nSample, a
      ensures Valid() && State() == old(State()).(a := old(State()).a + [Zeroed(pNew, nEqZero)])
    {
      ghost var s := State().a;
      a[nSample] := pNew;
      nSample := nSample + 1;
      a[nSample - 1] := Zeroed(a[nSample - 1], nEqZero);
      assert a[..nSample] == s + [Zeroed(pNew, nEqZero)];
    }

    method SampleInsert(pNew: Sample, nEqZero: nat)
      requires Valid() && CanEvict(State()) && IsSample(pNew, nCol) && nEqZero <= nCol
      requires NumPeriodic(State().a) + (if pNew.isPSample then 1 else 0) < mxSample
      modifies this`nMaxEqZero, this`iMin, this`nSample, a
      ensures Valid() && State() == Insert(old(State()), pNew, nEqZero)
    {
      ghost var p := State();
      if nEqZero > nMaxEqZero { nMaxEqZero := nEqZero; }
      ghost var p1 := State();
      var pUpgrade := -1;
      if !pNew.isPSample {
        var shared;
        pUpgrade, shared := FindUpgrade(pNew);
        if shared { return; }
      }
      if pUpgrade >= 0 {
        Raise(pUpgrade, pNew);
      } else {
        Replace(pNew, nEqZero);
        AppendPeriodic(p1, pNew, nEqZero);
      }
      FindNewMinimum();
    }

    /** The run of column i ends. */
    method OfferBest(i: nat)
      requires Valid() && Sound(State(), nRow) && i < nCol
      modifies this`nMaxEqZero, this`iMin, this`nSample, a, aBest
      ensures Valid() && Sound(State(), nRow) && State() == PushBest(old(State()), i)
    {
      ghost var p := State();
      PushBestReady(p, i);
      PeriodicFew(nEst, mxSample, nRow);
      aBest[i] := aBest[i].(anEq := aBest[i].anEq[i := current.anEq[i]]);
      ghost var b := p.aBest[i].(anEq := p.aBest[i].anEq[i := p.current.anEq[i]]);
      assert aBest[..] == p.aBest[i := b];
      var better := true;
      if nSample >= mxSample {
        assert a[iMin] == p.a[p.iMin];
        better := SampleIsBetter(nCol, aBest[i], a[iMin]);
      }
      if better { SampleInsert(aBest[i], i); }
    }

    method FillSamples(iChng: nat)
      requires Valid()
      modifies this`nMaxEqZero, a
      ensures Valid() && State() == FillAll(old(State()), iChng)
    {
      ghost var p := State();
      if iChng < nMaxEqZero {
        var i := nSample - 1;
        while i >= 0
          invariant -1 <= i < nSample
          invariant forall k :: 0 <= k <= i ==> a[k] == p.a[k]
          invariant forall k :: i < k < nSample ==> a[k] == Filled(p.a[k], current, iChng)
          decreases i
        {
          assert IsSample(p.a[i], nCol);
          var j := iChng;
          while j < nCol
            invariant j <= nCol || j == iChng
            invariant |a[i].anEq| == nCol && a[i] == p.a[i].(anEq := a[i].anEq)
            invariant forall k :: 0 <= k < nCol ==>
              a[i].anEq[k] == if k < j then Filled(p.a[i], current, iChng).anEq[k] else p.a[i].anEq[k]
            invariant forall k :: 0 <= k < i ==> a[k] == p.a[k]
            invariant forall k :: i < k < nSample ==> a[k] == Filled(p.a[k], current, iChng)
          {
            if a[i].anEq[j] == 0 { a[i] := a[i].(anEq := a[i].anEq[j := current.anEq[j]]); }
            j := j + 1;
          }
          assert a[i].anEq == Filled(p.a[i], current, iChng).anEq;
          i := i - 1;
        }
        nMaxEqZero := iChng;
        assert a[..nSample] == FillAll(p, iChng).a;
      }
    }

    /** The runs that end: one offer for each of their columns, last column first. */
    method OfferRuns(iChng: nat)
      requires Valid() && Sound(State(), nRow)
      modifies this`nMaxEqZero, this`iMin, this`nSample, a, aBest
      ensures Valid() && State() == PushDown(old(State()), nCol - 2, iChng)
    {
      ghost var p := State();
      var i := nCol - 2;
      while i >= iChng
        invariant i <= nCol - 2
        invariant Valid() && Sound(State(), nRow)
        invariant PushDown(State(), i, iChng) == PushDown(p, nCol - 2, iChng)
        decreases i
      {
        PushDownStep(State(), i, iChng);
        OfferBest(i);
        i := i - 1;
      }
    }

    method SamplePushPrevious(iChng: nat)
      requires Valid() && Sound(State(), nRow)
      modifies this`nMaxEqZero, this`iMin, this`nSample, a, aBest
      ensures Valid() && State() == PushPrevious(old(State()), iChng)
    {
      OfferRuns(iChng);
      FillSamples(iChng);
    }

    /** Brings the counts of the current row up to date, column by column. */
    method Advance(iChng: nat)
      requires IsSample(current, nCol)
      modifies this`current
      ensures current == Advanced(old(current), iChng)
    {
      ghost var cur, t := current, Advanced(current, iChng);
      var i := 0;
      while i < iChng && i < nCol
        invariant i <= nCol && i <= iChng
        invariant |current.anEq| == nCol && current == cur.(anEq := current.anEq)
        invariant forall k :: 0 <= k < nCol ==> current.anEq[k] == if k < i then t.anEq[k] else cur.anEq[k]
      {
        current := current.(anEq := current.anEq[i := current.anEq[i] + 1]);
        i := i + 1;
      }
      i := iChng;
      while i < nCol
        invariant i <= nCol || i == iChng
        invariant |current.anEq| == |current.anLt| == |current.anDLt| == nCol
        invariant current == cur.(anEq := current.anEq, anLt := current.anLt, anDLt := current.anDLt)
        invariant forall k :: 0 <= k < nCol ==> current.anEq[k] == if k < i then t.anEq[k] else cur.anEq[k]
        invariant forall k :: 0 <= k < nCol ==> current.anLt[k] == if k < i then t.anLt[k] else cur.anLt[k]
        invariant forall k :: 0 <= k < nCol ==> current.anDLt[k] == if k < i then t.anDLt[k] else cur.anDLt[k]
      {
        current := current.(
          anDLt := current.anDLt[i := current.anDLt[i] + 1],
          anLt := current.anLt[i := current.anLt[i] + current.anEq[i]],
          anEq := current.anEq[i := 1]);
        i := i + 1;
      }
      assert current.anEq == t.anEq && current.anLt == t.anLt && current.anDLt == t.anDLt;
    }

    method ConsiderBest(iChng: nat)
      requires Valid() && Ready(State())
      modifies this`current, aBest
      ensures Valid() && State() == UpdateBest(old(State()), iChng)
    {
      ghost var p := State();
      var i := 0;
      while i < nCol - 1
        invariant 0 <= i <= nCol && (i < nCol || nCol == 0)
        invariant current == p.current.(iCol := if i == 0 then p.current.iCol else i - 1)
        invariant forall k :: 0 <= k < nCol ==>
          aBest[k] == if k < i then Improved(p.aBest[k], p.current, k, iChng) else p.aBest[k]
      {
        current := current.(iCol := i);
        assert current == p.current.(iCol := i) && aBest[i] == p.aBest[i];
        var better := true;
        if i < iChng { better := SampleIsBetterPost(nCol, current, aBest[i]); }
        if better { aBest[i] := current; }
        i := i + 1;
      }
      assert aBest[..] == UpdateBest(p, iChng).aBest;
    }

    method TakePeriodic()
      requires Valid() && 0 < nRow <= nEst && Sound(State(), nRow - 1) && RowCounter(current, nRow)
      modifies this`current, this`nMaxEqZero, this`iMin, this`nSample, a
      ensures Valid() && State() == PushPeriodic(old(State()))
    {
      var nLt := current.anLt[nCol - 1];
      QuotientIsDivision(nLt, nPSample);
      QuotientIsDivision(nLt + 1, nPSample);
      if nLt / nPSample != (nLt + 1) / nPSample {
        PeriodicFew(nEst, mxSample, nRow);
        QuotientStep(nRow - 1, nPSample);
        InsertPeriodic();
      }
    }

    method InsertPeriodic()
      requires Valid() && CanEvict(State()) && !current.isPSample
      requires NumPeriodic(State().a) + 1 < mxSample
      modifies this`current, this`nMaxEqZero, this`iMin, this`nSample, a
      ensures Valid()
      ensures var p := old(State());
              State() == Insert(p, p.current.(isPSample := true, iCol := 0), p.nCol - 1)
                           .(current := p.current.(iCol := 0, isPSample := false))
    {
      ghost var p := State();
      current := current.(isPSample := true, iCol := 0);
      InsertFrame(p, current);
      SampleInsert(current, nCol - 1);
      current := current.(isPSample := false);
    }

    method CountFirst()
      requires IsSample(current, nCol)
      modifies this`current
      ensures current == FirstRow(old(current))
    {
      ghost var cur := current;
      var i := 0;
      while i < nCol
        invariant i <= nCol && |current.anEq| == nCol && current == cur.(anEq := current.anEq)
        invariant forall k :: 0 <= k < i ==> current.anEq[k] == 1
      {
        current := current.(anEq := current.anEq[i := 1]);
        i := i + 1;
      }
      assert current.anEq == FirstRow(cur).anEq;
    }

    /** The counts of the row that has just arrived. */
    method CountRow(iChng: nat)
      requires Valid() && Ready(State()) && iChng < nCol
      modifies this`current, this`nMaxEqZero, this`iMin, this`nSample, a, aBest
      ensures Valid() && State() == Counts(old(State()), iChng)
    {
      ghost var p := State();
      if nRow == 0 {
        CountFirst();
        assert State() == p.(current := FirstRow(p.current));
      } else {
        SamplePushPrevious(iChng);
        ghost var p1 := State();
        Advance(iChng);
        assert State() == p1.(current := Advanced(p1.current, iChng));
      }
    }

    /** The new row with its counts, rowid and tie-breaking hash. */
    method Arrive(iChng: nat, rowid: int)
      requires Valid() && Ready(State()) && iChng < nCol
      modifies this, a, aBest
      ensures Valid() && State() == Arrived(old(State()), iChng, rowid)
    {
      CountRow(iChng);
      Record(rowid);
    }

    method Record(rowid: int)
      requires Valid()
      modifies this`nRow, this`current, this`iPrn
      ensures Valid() && State() == Visit(old(State()), rowid)
    {
      nRow := nRow + 1;
      current := current.(rowid := rowid);
      iPrn := (iPrn * 1103515245 + 12345) % 0x1_0000_0000;
      current := current.(iHash := iPrn);
    }

    method Push(iChng: nat, rowid: int)
      requires Valid() && Ready(State()) && nRow < nEst && iChng < nCol
      modifies this, a, aBest
      ensures Valid() && Ready(State()) && State() == StatPush(old(State()), iChng, rowid)
    {
      Arrive(iChng, rowid);
      TakeRow(iChng);
    }

    /** Takes the current row as a periodic sample, if it is one, and as a best row. */
    method TakeRow(iChng: nat)
      requires Valid() && 0 < nRow <= nEst && Sound(State(), nRow - 1) && RowCounter(current, nRow)
      modifies this`current, this`nMaxEqZero, this`iMin, this`nSample, a, aBest
      ensures Valid() && Ready(State())
      ensures State() == UpdateBest(PushPeriodic(old(State())), iChng)
    {
      PushPeriodicReady(State());
      TakePeriodic();
      UpdateBestReady(State(), iChng);
      ConsiderBest(iChng);
    }
  }

  /** An insertion neither reads nor changes the current row. */
  lemma InsertFrame(p: Accum, s: Sample)
    requires IsAccum(p) && CanEvict(p) && IsSample(s, p.nCol)
    ensures Insert(p.(current := s), s, p.nCol - 1).(current := p.current) == Insert(p, s, p.nCol - 1)
  {
  }

  lemma AppendPeriodic(p: Accum, s: Sample, n: nat)
    requires IsAccum(p) && CanEvict(p) && IsSample(s, p.nCol) && n <= p.nCol
    ensures NumPeriodic(Append(p, s, n).a) == NumPeriodic(p.a) + (if s.isPSample then 1 else 0)
  {
    var kept := if |p.a| >= p.mxSample then Without(p.a, p.iMin) else p.a;
    if |p.a| >= p.mxSample { NumPeriodicWithout(p.a, p.iMin); }
    NumPeriodicAppend(kept, Zeroed(s, n));
  }
}
