/** The backup object as the source keeps it: fields that its methods update in place. */
module BackupObject {
  import opened Backup
  import opened BackupPages
  import opened BackupProof
  import opened Division

  class BackupObject {
    const g: Config
    var iNext: nat
    var rc: Rc
    var isAttached: bool
    var bDestLocked: bool
    var nRemaining: int
    var nPagecount: nat
    var dest: seq<Byte>

    ghost predicate Valid()
      reads this
    {
      IsAligned(g) && iNext > 0
    }

    ghost function State(): Backup
      reads this
    {
      Backup(iNext, rc, isAttached, bDestLocked, nRemaining, nPagecount, dest)
    }

    constructor (g: Config, dest: seq<Byte>)
      requires IsAligned(g)
      ensures Valid() && this.g == g && State() == Start(dest)
    {
      this.g, this.dest := g, dest;
      iNext, rc, isAttached, bDestLocked := 1, Ok, false, false;
      nRemaining, nPagecount := 0, 0;
    }

    /**
     One turn of the copy loop: what falls into the destination page at iOff is copied there,
     unless that is the unused page. Fetching a page for writing extends a shorter file.
     */
    method CopyToPage(zSrcData: seq<Byte>, iOff: nat, from: nat, header: seq<Byte>)
      requires 0 < g.pgszDest && from + Min(g.pgszSrc, g.pgszDest) <= |zSrcData|
      modifies this`dest
      ensures dest == if InUnusedPage(g, iOff) then old(dest)
                      else Placed(g, old(dest), zSrcData, iOff, from, PageEnd(g, iOff), header)
    {
      var iDest, pageStart, to := DestPage(g, iOff);
      if iDest == PendingPage(g, g.pgszDest) { return; }
      WriteToPage(pageStart, to, zSrcData, from, header);
    }

    method WriteToPage(pageStart: nat, to: nat, zSrcData: seq<Byte>, from: nat, header: seq<Byte>)
      requires from + Min(g.pgszSrc, g.pgszDest) <= |zSrcData|
      modifies this`dest
      ensures dest == Placed(g, old(dest), zSrcData, pageStart + to, from, pageStart + g.pgszDest, header)
    {
      var nCopy := Min(g.pgszSrc, g.pgszDest);
      dest := WriteAt(dest, pageStart + g.pgszDest, []);
      dest := WriteAt(dest, pageStart + to, zSrcData[from..from + nCopy]);
      if header != [] { dest := WriteAt(dest, 28, header); }
    }

    /** The turn at iOff of the page at base, given that everything before iOff has been copied. */
    method CopyTurn(zSrcData: seq<Byte>, iOff: nat, header: seq<Byte>, ghost iSrcPg: nat, ghost base: nat,
                    ghost d0: seq<Byte>)
      requires IsTurn(g, iSrcPg, base, iOff) && |zSrcData| == g.pgszSrc && |header| <= 4
      requires dest == Span(g, d0, base, iOff, zSrcData, header)
      modifies this`dest
      ensures dest == Span(g, d0, base, Min(iOff + g.pgszDest, base + g.pgszSrc), zSrcData, header)
    {
      TurnFits(g, iSrcPg, base, iOff);
      TurnIs(g, d0, dest, iSrcPg, base, iOff, zSrcData, header);
      CopyToPage(zSrcData, iOff, iOff % g.pgszSrc, if iOff == 0 then header else []);
    }

    /** Copies one source page, one turn for each destination page that it spans. */
    method CopyOnePage(iSrcPg: nat, zSrcData: seq<Byte>, bUpdate: bool, nSrcPage: nat)
      requires Valid() && iSrcPg > 0 && |zSrcData| == g.pgszSrc && iSrcPg != PendingPage(g, g.pgszSrc)
      modifies this`dest
      ensures dest == OnePage(g, old(dest), iSrcPg, zSrcData, if bUpdate then [] else Put4(nSrcPage))
    {
      var iEnd := iSrcPg * g.pgszSrc;
      PageStart(g, iSrcPg);
      CopyTurns(zSrcData, iEnd - g.pgszSrc, iEnd, if bUpdate then [] else Put4(nSrcPage), iSrcPg);
    }

    method CopyTurns(zSrcData: seq<Byte>, iStart: nat, iEnd: nat, header: seq<Byte>, ghost iSrcPg: nat)
      requires IsTurn(g, iSrcPg, iStart, iStart) && iEnd == iStart + g.pgszSrc
      requires |zSrcData| == g.pgszSrc && |header| <= 4
      modifies this`dest
      ensures dest == Span(g, old(dest), iStart, iEnd, zSrcData, header)
    {
      var iOff := iStart;
      SpanNothing(g, dest, iStart, zSrcData, header);
      while iOff < iEnd
        invariant At(g, iStart, iOff)
        invariant dest == Span(g, old(dest), iStart, Min(iOff, iEnd), zSrcData, header)
        decreases iEnd - iOff
      {
        NextAt(g, iStart, iOff);
        CopyTurn(zSrcData, iOff, header, iSrcPg, iStart, old(dest));
        iOff := iOff + g.pgszDest;
      }
    }

    /** Copies up to nPage pages (all, if negative) and does the bookkeeping of one step. */
    method BackupStep(src: seq<Byte>, nPage: int, e: Env)
      requires Valid() && IsSource(g, src) && IsEnv(g, e)
      modifies this
      ensures Valid() && State() == Step(g, old(State()), src, nPage, e)
    {
      if IsFatal(rc) { return; }
      TakeLocks(e);
      if rc != Ok { return; }
      var nSrcPage := NumPages(g, src);
      CopyLoop(src, nPage, e.failAt);
      if rc != Ok { return; }
      nPagecount, nRemaining := nSrcPage, nSrcPage + 1 - iNext;
      if iNext > nSrcPage {
        Complete(src, e);
      } else {
        isAttached := true;
      }
    }

    method TakeLocks(e: Env)
      modifies this`rc, this`bDestLocked
      ensures (rc, bDestLocked) == Prepare(g, old(State()), e)
    {
      rc := if e.inWrite then Busy else Ok;
      if rc == Ok { rc := e.beginSrc; }
      if !bDestLocked && rc == Ok && e.destNoMem { rc := Fatal; }
      if rc == Ok && !bDestLocked {
        rc := e.beginDest;
        if rc == Ok { bDestLocked := true; }
      }
      if rc == Ok && e.destFixed && g.pgszSrc != g.pgszDest { rc := Fatal; }
    }

    /** The next page, unless it is the unused one. */
    method CopyNextPage(src: seq<Byte>, fails: bool)
      requires Valid() && IsSource(g, src) && iNext <= NumPages(g, src)
      modifies this`iNext, this`rc, this`dest
      ensures Valid() && State() == CopyNext(g, old(State()), src, fails)
    {
      var iSrcPg := iNext;
      if iSrcPg != PendingPage(g, g.pgszSrc) {
        if fails {
          rc := Fatal;
        } else {
          CopyOnePage(iSrcPg, Page(g, src, iSrcPg), false, NumPages(g, src));
        }
      }
      iNext := iNext + 1;
    }

    method CopyLoop(src: seq<Byte>, nPage: int, failAt: int)
      requires Valid() && IsSource(g, src) && rc == Ok
      modifies this`iNext, this`rc, this`dest
      ensures Valid() && State() == CopyPages(g, old(State()), src, nPage, failAt, 0)
    {
      ghost var copied := CopyPages(g, State(), src, nPage, failAt, 0);
      var nSrcPage := NumPages(g, src);
      var ii := 0;
      while (nPage < 0 || ii < nPage) && iNext <= nSrcPage && rc == Ok
        invariant Valid() && ii >= 0 && CopyPages(g, State(), src, nPage, failAt, ii) == copied
        decreases if iNext <= nSrcPage then nSrcPage + 1 - iNext else 0
      {
        CopyNextPage(src, ii == failAt);
        ii := ii + 1;
      }
    }

    /** Commits the destination, after the writes that bypass its pager when its pages are larger. */
    method Complete(src: seq<Byte>, e: Env)
      requires Valid() && IsSource(g, src) && IsEnv(g, e) && rc == Ok
      modifies this`rc, this`dest
      ensures State() == Finish(g, old(State()), src, e)
    {
      if e.finishFails {
        rc := Fatal;
        return;
      }
      var nSrcPage := NumPages(g, src);
      if src == [] {
        dest := WriteAt(dest, 0, e.newDb);
        nSrcPage := 1;
      }
      dest := WriteAt(dest, 0, e.head);
      if g.pgszSrc < g.pgszDest {
        var iSize := g.pgszSrc * nSrcPage;
        WriteExtraPages(src, iSize);
        if |dest| > iSize { dest := dest[..iSize]; }
      } else {
        var n := DestPages(g, nSrcPage) * g.pgszDest;
        if n <= |dest| { dest := dest[..n]; }
      }
      rc := Done;
    }

    method WriteExtraPages(src: seq<Byte>, iSize: int)
      requires Valid()
      modifies this`dest
      ensures dest == DirectWrites(g, old(dest), src, g.pendingByte + g.pgszSrc, Min(g.pendingByte + g.pgszDest, iSize))
    {
      var iEnd := Min(g.pendingByte + g.pgszDest, iSize);
      var iOff := g.pendingByte + g.pgszSrc;
      ghost var written := DirectWrites(g, dest, src, iOff, iEnd);
      while iOff < iEnd && iOff + g.pgszSrc <= |src|
        invariant DirectWrites(g, dest, src, iOff, iEnd) == written
        decreases iEnd - iOff
      {
        dest := WriteAt(dest, iOff, src[iOff..iOff + g.pgszSrc]);
        iOff := iOff + g.pgszSrc;
      }
    }

    /** The source's pager reports new contents of a page. */
    method BackupUpdate(iPage: nat, aData: seq<Byte>, fails: bool)
      requires Valid() && iPage > 0 && |aData| == g.pgszSrc && iPage != PendingPage(g, g.pgszSrc)
      modifies this`rc, this`dest
      ensures Valid() && State() == Update(g, old(State()), iPage, aData, fails)
    {
      if !IsFatal(rc) && iPage < iNext {
        if fails {
          rc := Fatal;
        } else {
          CopyOnePage(iPage, aData, true, 0);
        }
      }
    }

    /** Starts again; the copy is then sound for any source. */
    method BackupRestart()
      requires Valid()
      modifies this`iNext
      ensures Valid() && State() == Restart(old(State()))
      ensures forall src :: IsSource(g, src) ==> Sound(g, State(), src)
    {
      iNext := 1;
      forall src | IsSource(g, src) ensures Sound(g, State(), src) { RestartOk(g, State(), src); }
    }
  }

  // ---- The copy loop ----

  predicate InUnusedPage(g: Config, iOff: nat)
    requires g.pgszDest > 0
  {
    iOff / g.pgszDest + 1 == PendingPage(g, g.pgszDest)
  }

  /** The end of the destination page at iOff. */
  function PageEnd(g: Config, iOff: nat): nat
    requires g.pgszDest > 0
  {
    iOff - iOff % g.pgszDest + g.pgszDest
  }

  /** A file extended to end, with a part of data written at iOff, and the header if there is one. */
  function Placed(g: Config, d: seq<Byte>, data: seq<Byte>, iOff: nat, from: nat, end: nat,
                  header: seq<Byte>): seq<Byte>
    requires from + Min(g.pgszSrc, g.pgszDest) <= |data|
  {
    var e := WriteAt(WriteAt(d, end, []), iOff, data[from..from + Min(g.pgszSrc, g.pgszDest)]);
    if header == [] then e else WriteAt(e, 28, header)
  }

  lemma PageStart(g: Config, p: nat)
    requires IsAligned(g) && p > 0
    ensures var base := Offset(p, g.pgszSrc); base == p * g.pgszSrc - g.pgszSrc && At(g, base, base)
  {
    TimesIsProduct(p - 1, g.pgszSrc);
    MulStep(p - 1, g.pgszSrc);
    PageFits(g, p);
  }

  /** The destination page at iOff: its number, where it starts, and where iOff is in it. */
  method DestPage(g: Config, iOff: nat) returns (iDest: nat, pageStart: nat, to: nat)
    requires g.pgszDest > 0
    ensures InUnusedPage(g, iOff) <==> iDest == PendingPage(g, g.pgszDest)
    ensures pageStart + to == iOff && pageStart + g.pgszDest == PageEnd(g, iOff)
  {
    OffsetIn(iOff, g.pgszDest);
    TimesIsProduct(iOff / g.pgszDest, g.pgszDest);
    iDest, to := iOff / g.pgszDest + 1, iOff % g.pgszDest;
    pageStart := (iDest - 1) * g.pgszDest;
  }

  /** Where the copy loop can be: at the page's start or end, or at a destination page inside it. */
  predicate At(g: Config, base: nat, iOff: nat)
    requires g.pgszDest > 0
  {
    && base <= iOff && Fits(g, base)
    && (if g.pgszSrc <= g.pgszDest then iOff == base || iOff == base + g.pgszDest
        else iOff % g.pgszDest == 0 && iOff <= base + g.pgszSrc)
  }

  lemma FirstPage(p: nat, s: nat)
    requires p > 0
    ensures Offset(p, s) == 0 || Offset(p, s) >= s
  {
    if p > 1 { TimesMono(0, p - 1, s); }
  }

  lemma SpanNothing(g: Config, d: seq<Byte>, base: nat, data: seq<Byte>, header: seq<Byte>)
    requires g.pgszDest > 0
    ensures Span(g, d, base, base, data, header) == d
  {
  }

  lemma FromOffset(g: Config, p: nat, iOff: nat)
    requires p > 0 && g.pgszSrc > 0 && Offset(p, g.pgszSrc) <= iOff < Offset(p, g.pgszSrc) + g.pgszSrc
    ensures iOff % g.pgszSrc == iOff - Offset(p, g.pgszSrc)
  {
    TimesIsProduct(p - 1, g.pgszSrc);
    DivModUnique(iOff, g.pgszSrc, p - 1, iOff - Offset(p, g.pgszSrc));
  }

  lemma ModStep(x: nat, d: nat)
    requires d > 0
    ensures (x + d) % d == x % d
  {
    MulStep(x / d, d);
    DivModUnique(x + d, d, x / d + 1, x % d);
  }

  lemma NextAt(g: Config, base: nat, iOff: nat)
    requires IsAligned(g) && At(g, base, iOff) && iOff < base + g.pgszSrc
    ensures At(g, base, iOff + g.pgszDest)
    ensures iOff + Min(g.pgszSrc, g.pgszDest) == Min(iOff + g.pgszDest, base + g.pgszSrc)
  {
    if g.pgszSrc > g.pgszDest {
      ModStep(iOff, g.pgszDest);
      RoomForPage(base + g.pgszSrc - iOff, base, iOff, g.pgszSrc, g.pgszDest);
    }
  }

  /** Between two page boundaries there is room for a page. */
  lemma RoomForPage(room: nat, base: nat, iOff: nat, s: nat, d: nat)
    requires d > 0 && base % d == 0 && iOff % d == 0 && s % d == 0 && room == base + s - iOff > 0
    ensures room >= d
  {
    var a, b, c := base / d, iOff / d, s / d;
    Multiple(base, d);
    Multiple(iOff, d);
    Multiple(s, d);
    assert (a + c - b) * d == a * d + c * d - b * d;
    assert (b - a - c) * d == 0 - room;
    if a + c - b > 0 { MulGe(a + c - b, d); } else if a + c - b < 0 { MulGe(b - a - c, d); }
  }

  lemma RoundUpIs(off: nat, n: nat, d: nat)
    requires 0 < n && d > 0 && off % d + n <= d
    ensures RoundUp(off + n, d) == off - off % d + d
  {
    var q := off / d;
    assert off == q * d + off % d;
    if off % d + n == d {
      MulStep(q, d);
      DivModUnique(off + n, d, q + 1, 0);
    } else {
      DivModUnique(off + n, d, q, off % d + n);
    }
  }

  /** A page boundary other than 0 is at least a page away from 0. */
  lemma NotSmall(x: nat, d: nat)
    requires d > 0
    ensures x % d == 0 ==> x == 0 || x >= d
  {
    if x < d { DivModUnique(x, d, 0, x); }
  }

  lemma UnusedTurn(g: Config, d0: seq<Byte>, base: nat, iOff: nat, n: nat, data: seq<Byte>, header: seq<Byte>)
    requires 0 < n && 0 < g.pgszDest <= g.pendingByte && base <= iOff && iOff + n <= base + |data|
    requires InDestPending(g, iOff) && InDestPending(g, iOff + n - 1) && iOff == base
    ensures Span(g, d0, base, iOff, data, header) == Span(g, d0, base, iOff + n, data, header)
  {
  }

  /** The same bytes, one by one: those before the turn, and those of the turn. */
  lemma UsedBytes(g: Config, d0: seq<Byte>, d: seq<Byte>, base: nat, iOff: nat, n: nat, end: nat, data: seq<Byte>,
                  header: seq<Byte>, part: seq<Byte>)
    requires 32 <= n <= g.pgszDest && base <= iOff && iOff + n <= base + |data| && |header| <= 4
    requires !InDestPending(g, iOff) && !InDestPending(g, iOff + n - 1) && (iOff == 0 || iOff >= 32)
    requires end == RoundUp(iOff + n, g.pgszDest) >= iOff + n
    requires iOff == base || (!InDestPending(g, iOff - 1) && RoundUp(iOff, g.pgszDest) == iOff)
    requires d == Span(g, d0, base, iOff, data, header) && part == data[iOff - base..iOff - base + n]
    ensures var e, x := WriteAt(WriteAt(d, end, []), iOff, part), Span(g, d0, base, iOff + n, data, header);
            |x| == |e| >= 32 && (iOff > 0 && base == 0 ==> |d| >= 32)
            && forall i :: 0 <= i < |e| ==>
                 x[i] == if base == 0 && 28 <= i < 28 + |header| then header[i - 28] else e[i]
  {
    var e := WriteAt(WriteAt(d, end, []), iOff, part);
    var x := Span(g, d0, base, iOff + n, data, header);
    assert |x| == |e|;
    forall i | 0 <= i < |e|
      ensures x[i] == if base == 0 && 28 <= i < 28 + |header| then header[i - 28] else e[i]
    {
      assert iOff <= i < iOff + n ==> !InDestPending(g, i);
    }
  }

  lemma UsedTurn(g: Config, d0: seq<Byte>, d: seq<Byte>, base: nat, iOff: nat, n: nat, end: nat, data: seq<Byte>,
                 header: seq<Byte>)
    requires 32 <= n <= g.pgszDest && base <= iOff && iOff + n <= base + |data| && |header| <= 4
    requires !InDestPending(g, iOff) && !InDestPending(g, iOff + n - 1) && (iOff == 0 || iOff >= 32)
    requires end == RoundUp(iOff + n, g.pgszDest) >= iOff + n
    requires iOff == base || (!InDestPending(g, iOff - 1) && RoundUp(iOff, g.pgszDest) == iOff)
    requires d == Span(g, d0, base, iOff, data, header) && n == Min(g.pgszSrc, g.pgszDest)
    ensures Span(g, d0, base, iOff + n, data, header)
         == Placed(g, d, data, iOff, iOff - base, end, if iOff == 0 then header else [])
  {
    var part := data[iOff - base..iOff - base + n];
    var e := WriteAt(WriteAt(d, end, []), iOff, part);
    UsedBytes(g, d0, d, base, iOff, n, end, data, header, part);
    HeaderIn(e, Span(g, d0, base, iOff + n, data, header), base == 0, header);
    if base == 0 && iOff > 0 { HeaderKept(g, d0, d, iOff, end, data, header, part); }
  }

  /** The header that an earlier turn of page 1 has written stays. */
  lemma HeaderKept(g: Config, d0: seq<Byte>, d: seq<Byte>, iOff: nat, end: nat, data: seq<Byte>, header: seq<Byte>,
                   part: seq<Byte>)
    requires g.pgszDest > 0 && 32 <= iOff <= |data| && |header| <= 4 && |d| >= 32
    requires d == Span(g, d0, 0, iOff, data, header)
    ensures var e := WriteAt(WriteAt(d, end, []), iOff, part);
            |e| >= 32 && forall i :: 28 <= i < 28 + |header| ==> e[i] == header[i - 28]
  {
  }

  /** Bytes that are those of e, but for the header, are those of e with the header written. */
  lemma HeaderIn(e: seq<Byte>, x: seq<Byte>, first: bool, header: seq<Byte>)
    requires |x| == |e| >= 32 && |header| <= 4
    requires forall i :: 0 <= i < |e| ==> x[i] == if first && 28 <= i < 28 + |header| then header[i - 28] else e[i]
    ensures x == if first && header != [] then WriteAt(e, 28, header) else e
    ensures (forall i :: 28 <= i < 28 + |header| ==> e[i] == header[i - 28]) ==> x == e
  {
  }

  /** What a turn needs to know about its offsets. */
  lemma TurnFacts(g: Config, base: nat, iOff: nat)
    requires IsAligned(g) && At(g, base, iOff) && iOff < base + g.pgszSrc && (base == 0 || base >= g.pgszSrc)
    ensures var n := Min(g.pgszSrc, g.pgszDest);
            && 512 <= n <= g.pgszDest && iOff + n == Min(iOff + g.pgszDest, base + g.pgszSrc)
            && (InDestPending(g, iOff) <==> InDestPending(g, iOff + n - 1))
            && (InDestPending(g, iOff) <==> InUnusedPage(g, iOff))
            && PageEnd(g, iOff) == RoundUp(iOff + n, g.pgszDest) >= iOff + n
            && (iOff == 0 || iOff >= 32)
            && (iOff == base || (g.pgszSrc > g.pgszDest && RoundUp(iOff, g.pgszDest) == iOff))
  {
    var n := Min(g.pgszSrc, g.pgszDest);
    NextAt(g, base, iOff);
    SamePage(g, iOff, n);
    RoundUpIs(iOff, n, g.pgszDest);
    NotSmall(iOff, g.pgszDest);
  }

  /** A turn extends what has been copied by the bytes of one destination page. */
  lemma TurnOk(g: Config, d0: seq<Byte>, d: seq<Byte>, base: nat, iOff: nat, n: nat, end: nat, data: seq<Byte>,
               header: seq<Byte>)
    requires n == Min(g.pgszSrc, g.pgszDest) && 512 <= n <= g.pgszDest <= g.pendingByte
    requires |data| == g.pgszSrc && |header| <= 4
    requires base <= iOff && iOff + n == Min(iOff + g.pgszDest, base + g.pgszSrc)
    requires InDestPending(g, iOff) <==> InDestPending(g, iOff + n - 1)
    requires end == RoundUp(iOff + n, g.pgszDest) >= iOff + n && (iOff == 0 || iOff >= 32)
    requires iOff == base || (g.pgszSrc > g.pgszDest && RoundUp(iOff, g.pgszDest) == iOff)
    requires base >= g.pendingByte + g.pgszSrc || base + g.pgszSrc <= g.pendingByte
    requires d == Span(g, d0, base, iOff, data, header)
    ensures Span(g, d0, base, iOff + n, data, header)
         == if InDestPending(g, iOff) then d
            else Placed(g, d, data, iOff, iOff - base, end, if iOff == 0 then header else [])
  {
    if InDestPending(g, iOff) {
      UnusedTurn(g, d0, base, iOff, n, data, header);
    } else {
      UsedTurn(g, d0, d, base, iOff, n, end, data, header);
    }
  }

  /** The turn at iOff of copying source page p, which starts at base. */
  predicate IsTurn(g: Config, p: nat, base: nat, iOff: nat) {
    && IsAligned(g) && p > 0 && p != PendingPage(g, g.pgszSrc)
    && base == Offset(p, g.pgszSrc) && At(g, base, iOff) && iOff < base + g.pgszSrc
  }

  lemma TurnFits(g: Config, p: nat, base: nat, iOff: nat)
    requires IsTurn(g, p, base, iOff)
    ensures iOff % g.pgszSrc == iOff - base
    ensures iOff - base + Min(g.pgszSrc, g.pgszDest) <= g.pgszSrc
  {
    FromOffset(g, p, iOff);
    NextAt(g, base, iOff);
  }

  lemma TurnIs(g: Config, d0: seq<Byte>, d: seq<Byte>, p: nat, base: nat, iOff: nat, data: seq<Byte>, header: seq<Byte>)
    requires IsTurn(g, p, base, iOff) && |data| == g.pgszSrc && |header| <= 4
    requires iOff - base + Min(g.pgszSrc, g.pgszDest) <= g.pgszSrc
    requires d == Span(g, d0, base, iOff, data, header)
    ensures Span(g, d0, base, Min(iOff + g.pgszDest, base + g.pgszSrc), data, header)
         == if InUnusedPage(g, iOff) then d
            else Placed(g, d, data, iOff, iOff - base, PageEnd(g, iOff), if iOff == 0 then header else [])
  {
    FirstPage(p, g.pgszSrc);
    NotInPending(g, p);
    TurnAt(g, d0, d, base, iOff, Min(g.pgszSrc, g.pgszDest), PageEnd(g, iOff), data, header);
  }

  lemma TurnAt(g: Config, d0: seq<Byte>, d: seq<Byte>, base: nat, iOff: nat, n: nat, end: nat, data: seq<Byte>,
               header: seq<Byte>)
    requires IsAligned(g) && At(g, base, iOff) && iOff < base + g.pgszSrc && (base == 0 || base >= g.pgszSrc)
    requires n == Min(g.pgszSrc, g.pgszDest) && end == PageEnd(g, iOff)
    requires base >= g.pendingByte + g.pgszSrc || base + g.pgszSrc <= g.pendingByte
    requires |data| == g.pgszSrc && |header| <= 4 && d == Span(g, d0, base, iOff, data, header)
    ensures iOff - base + n <= |data| && iOff + n == Min(iOff + g.pgszDest, base + g.pgszSrc)
    ensures Span(g, d0, base, iOff + n, data, header)
         == if InUnusedPage(g, iOff) then d
            else Placed(g, d, data, iOff, iOff - base, end, if iOff == 0 then header else [])
  {
    TurnFacts(g, base, iOff);
    TurnOk(g, d0, d, base, iOff, n, end, data, header);
  }
}
