/** Whatever happens between the steps, a backup that reports completion has copied the source of that moment. */
module BackupProof {
  import opened Backup
  import opened BackupPages
  import opened Division

  // ---- The invariant ----

  predicate Skipped(g: Config, off: int) {
    InSrcPending(g, off) || InDestPending(g, off)
  }

  /** Up to limit, the destination has every byte of the source, but for the header and unused pages. */
  ghost predicate Faithful(g: Config, src: seq<Byte>, dest: seq<Byte>, limit: int) {
    forall off :: 0 <= off < limit && off < |src| && !Skipped(g, off) ==>
      off < |dest| && (off >= 100 ==> dest[off] == src[off])
  }

  ghost predicate Inv(g: Config, s: State) {
    && IsAligned(g) && IsSource(g, s.src) && s.b.iNext > 0
    && (!IsFatal(s.b.rc) ==>
      && (s.b.iNext > 1 ==> s.b.isAttached)
      && Faithful(g, s.src, s.b.dest, Offset(s.b.iNext, g.pgszSrc)))
  }

  lemma NextOffset(p: nat, pgsz: nat)
    requires p > 0
    ensures Offset(p + 1, pgsz) == Offset(p, pgsz) + pgsz
  {
  }

  /** Pages 1..n of a file of n pages end with the file. */
  lemma SourceEnd(g: Config, src: seq<Byte>)
    requires IsAligned(g) && IsSource(g, src)
    ensures Offset(NumPages(g, src) + 1, g.pgszSrc) == |src|
  {
    Multiple(|src|, g.pgszSrc);
    OffsetIs(NumPages(g, src) + 1, g.pgszSrc, |src|);
  }

  // ---- Copying ----

  /** Replacing one page in both files keeps them alike. */
  lemma FaithfulPage(g: Config, src: seq<Byte>, d0: seq<Byte>, d1: seq<Byte>, limit: int, base: nat, data: seq<Byte>)
    requires |data| == g.pgszSrc && Copied(g, d0, d1, base, data)
    requires forall off :: base <= off < base + g.pgszSrc && off < |src| ==> src[off] == data[off - base]
    requires forall off :: 0 <= off < limit && off < |src| && !(base <= off < base + g.pgszSrc) && !Skipped(g, off) ==>
      off < |d0| && (off >= 100 ==> d0[off] == src[off])
    ensures Faithful(g, src, d1, limit)
  {
  }

  lemma CopyNextOk(g: Config, b: Backup, src: seq<Byte>, fails: bool)
    requires IsAligned(g) && IsSource(g, src) && 1 <= b.iNext <= NumPages(g, src)
    requires Faithful(g, src, b.dest, Offset(b.iNext, g.pgszSrc)) && b.rc == Ok
    ensures var q := CopyNext(g, b, src, fails);
            && (q.rc == Ok || q.rc == Fatal) && q.isAttached == b.isAttached
            && (q.rc == Ok ==> Faithful(g, src, q.dest, Offset(q.iNext, g.pgszSrc)))
  {
    NextOffset(b.iNext, g.pgszSrc);
    if b.iNext == PendingPage(g, g.pgszSrc) {
      SkippedPage(g, src, b.dest, b.iNext);
    } else if !fails {
      CopiedPage(g, src, b.dest, b.iNext, Put4(NumPages(g, src)));
    }
  }

  lemma SkippedPage(g: Config, src: seq<Byte>, dest: seq<Byte>, p: nat)
    requires IsAligned(g) && p > 0 && p == PendingPage(g, g.pgszSrc) && Faithful(g, src, dest, Offset(p, g.pgszSrc))
    ensures Faithful(g, src, dest, Offset(p, g.pgszSrc) + g.pgszSrc)
  {
    PendingStart(g, g.pgszSrc);
  }

  lemma CopiedPage(g: Config, src: seq<Byte>, dest: seq<Byte>, p: nat, header: seq<Byte>)
    requires IsAligned(g) && IsSource(g, src) && 1 <= p <= NumPages(g, src) && p != PendingPage(g, g.pgszSrc)
    requires Faithful(g, src, dest, Offset(p, g.pgszSrc)) && |header| <= 4
    ensures Faithful(g, src, OnePage(g, dest, p, Page(g, src, p), header), Offset(p, g.pgszSrc) + g.pgszSrc)
  {
    var base, data := Offset(p, g.pgszSrc), Page(g, src, p);
    PageInFile(|src|, g.pgszSrc, p);
    OnePageOk(g, dest, p, data, header);
    FaithfulPage(g, src, dest, OnePage(g, dest, p, data, header), base + g.pgszSrc, base, data);
  }

  lemma {:induction false} CopyPagesOk(g: Config, b: Backup, src: seq<Byte>, nPage: int, failAt: int, ii: nat)
    requires IsAligned(g) && IsSource(g, src) && b.iNext > 0 && (b.rc == Ok || b.rc == Fatal)
    requires b.rc == Ok ==> Faithful(g, src, b.dest, Offset(b.iNext, g.pgszSrc))
    ensures var q := CopyPages(g, b, src, nPage, failAt, ii);
            && q.iNext > 0 && (q.rc == Ok || q.rc == Fatal) && q.isAttached == b.isAttached
            && (q.rc == Ok ==> Faithful(g, src, q.dest, Offset(q.iNext, g.pgszSrc)))
    decreases if b.iNext <= NumPages(g, src) then NumPages(g, src) + 1 - b.iNext else 0
  {
    if (nPage < 0 || ii < nPage) && b.iNext <= NumPages(g, src) && b.rc == Ok {
      CopyNextOk(g, b, src, ii == failAt);
      CopyPagesOk(g, CopyNext(g, b, src, ii == failAt), src, nPage, failAt, ii + 1);
    }
  }

  // ---- Completion ----

  /** The destination is the source: same size, and every byte outside the header and the unused page. */
  ghost predicate IsCopy(g: Config, src: seq<Byte>, dest: seq<Byte>) {
    && |dest| == |src|
    && forall off :: 100 <= off < |src| && !InSrcPending(g, off) ==> dest[off] == src[off]
  }

  lemma {:induction false} DirectWritesOk(g: Config, f: seq<Byte>, src: seq<Byte>, iOff: nat, iEnd: int, k: nat)
    requires IsAligned(g) && iOff + Times(k, g.pgszSrc) == |src| && iEnd <= |src|
    ensures var r := DirectWrites(g, f, src, iOff, iEnd);
            && |r| >= |f| && (iOff < iEnd ==> |r| >= iEnd)
            && (forall off :: iOff <= off < iEnd ==> r[off] == src[off])
            && (forall off :: 0 <= off < |f| ==> r[off] == f[off] || (off < |src| && r[off] == src[off]))
    decreases k
  {
    if iOff < iEnd {
      DirectWritesOk(g, WriteAt(f, iOff, src[iOff..iOff + g.pgszSrc]), src, iOff + g.pgszSrc, iEnd, k - 1);
    }
  }

  /** Where the source ends: not in its unused page. */
  lemma LastByte(g: Config, src: seq<Byte>)
    requires IsAligned(g) && IsSource(g, src) && src != []
    ensures !InSrcPending(g, |src| - 1) && |src| >= g.pgszSrc
  {
    SourceEnd(g, src);
    NextOffset(NumPages(g, src), g.pgszSrc);
    NotInPending(g, NumPages(g, src));
  }

  /** What the direct writes find: the bytes behind the source's unused page. */
  lemma DirectOk(g: Config, dest: seq<Byte>, src: seq<Byte>)
    requires IsAligned(g) && IsSource(g, src)
    ensures var lo, iEnd := g.pendingByte + g.pgszSrc, Min(g.pendingByte + g.pgszDest, |src|);
            var r := DirectWrites(g, dest, src, lo, iEnd);
            && |r| >= |dest| && (lo < iEnd ==> |r| >= iEnd)
            && (forall off :: lo <= off < iEnd ==> r[off] == src[off])
            && (forall off :: 0 <= off < |dest| ==> r[off] == dest[off] || (off < |src| && r[off] == src[off]))
  {
    var lo, iEnd := g.pendingByte + g.pgszSrc, Min(g.pendingByte + g.pgszDest, |src|);
    if lo <= |src| {
      PendingMultiple(g, src);
      DirectWritesOk(g, dest, src, lo, iEnd, NumPages(g, src) - PendingPage(g, g.pgszSrc));
    }
  }

  lemma SmallCommit(g: Config, dest: seq<Byte>, src: seq<Byte>)
    requires IsAligned(g) && IsSource(g, src) && g.pgszSrc < g.pgszDest
    ensures var f := DirectWrites(g, dest, src, g.pendingByte + g.pgszSrc, Min(g.pendingByte + g.pgszDest, |src|));
            Committed(g, dest, src, NumPages(g, src)) == if |f| > |src| then f[..|src|] else f
  {
    Multiple(|src|, g.pgszSrc);
  }

  lemma SmallCommitOk(g: Config, dest: seq<Byte>, src: seq<Byte>)
    requires IsAligned(g) && IsSource(g, src) && src != [] && g.pgszSrc < g.pgszDest
    requires Faithful(g, src, dest, |src|)
    ensures IsCopy(g, src, Committed(g, dest, src, NumPages(g, src)))
  {
    LastByte(g, src);
    DirectOk(g, dest, src);
    SmallCommit(g, dest, src);
    var r := DirectWrites(g, dest, src, g.pendingByte + g.pgszSrc, Min(g.pendingByte + g.pgszDest, |src|));
    SmallBytes(g, dest, src, r);
  }

  lemma SmallBytes(g: Config, dest: seq<Byte>, src: seq<Byte>, r: seq<Byte>)
    requires Faithful(g, src, dest, |src|) && src != [] && !InSrcPending(g, |src| - 1)
    requires var lo, iEnd := g.pendingByte + g.pgszSrc, Min(g.pendingByte + g.pgszDest, |src|);
            && |r| >= |dest| && (lo < iEnd ==> |r| >= iEnd)
            && (forall off :: lo <= off < iEnd ==> r[off] == src[off])
            && (forall off :: 0 <= off < |dest| ==> r[off] == dest[off] || (off < |src| && r[off] == src[off]))
    ensures |r| >= |src| && IsCopy(g, src, r[..|src|])
  {
    assert |r| >= |src| by { assert Skipped(g, |src| - 1) || |src| <= |dest|; }
    forall off | 100 <= off < |src| && !InSrcPending(g, off) ensures r[off] == src[off] {
      if !InDestPending(g, off) {
        assert !Skipped(g, off);
        assert dest[off] == src[off];
      }
    }
  }

  lemma PendingMultiple(g: Config, src: seq<Byte>)
    requires IsAligned(g) && IsSource(g, src) && g.pendingByte + g.pgszSrc <= |src|
    ensures var n, u := NumPages(g, src), PendingPage(g, g.pgszSrc);
            n >= u && g.pendingByte + g.pgszSrc + Times(n - u, g.pgszSrc) == |src|
  {
    var n, u := NumPages(g, src), PendingPage(g, g.pgszSrc);
    PendingStart(g, g.pgszSrc);
    SourceEnd(g, src);
    if n < u { OffsetMono(n + 1, u, g.pgszSrc); } else { TimesAdd(u, n - u, g.pgszSrc); }
  }

  lemma LargeBytes(g: Config, dest: seq<Byte>, src: seq<Byte>)
    requires Faithful(g, src, dest, |src|) && src != [] && !InSrcPending(g, |src| - 1) && g.pgszDest <= g.pgszSrc
    ensures |dest| >= |src| && IsCopy(g, src, dest[..|src|])
  {
    assert !Skipped(g, |src| - 1);
    forall off | 100 <= off < |src| && !InSrcPending(g, off) ensures dest[off] == src[off] {
      assert !Skipped(g, off);
    }
  }

  lemma LargePages(n: nat, s: nat, d: nat)
    requires 0 < d <= s && s % d == 0
    ensures n * (s / d) * d == n * s
  {
    Multiple(s, d);
    assert n * (s / d) * d == n * ((s / d) * d);
  }

  lemma LargeCommitOk(g: Config, dest: seq<Byte>, src: seq<Byte>)
    requires IsAligned(g) && IsSource(g, src) && src != [] && g.pgszDest <= g.pgszSrc
    requires Faithful(g, src, dest, |src|)
    ensures IsCopy(g, src, Committed(g, dest, src, NumPages(g, src)))
  {
    LargePages(NumPages(g, src), g.pgszSrc, g.pgszDest);
    Multiple(|src|, g.pgszSrc);
    LastByte(g, src);
    LargeBytes(g, dest, src);
  }

  lemma FinishOk(g: Config, b: Backup, src: seq<Byte>, e: Env)
    requires IsAligned(g) && IsSource(g, src) && IsEnv(g, e) && src != []
    requires Faithful(g, src, b.dest, |src|)
    ensures var q := Finish(g, b, src, e); q.rc == Fatal || (q.rc == Done && IsCopy(g, src, q.dest))
  {
    if !e.finishFails {
      var d := WriteAt(b.dest, 0, e.head);
      assert Faithful(g, src, d, |src|);
      if g.pgszSrc < g.pgszDest { SmallCommitOk(g, d, src); } else { LargeCommitOk(g, d, src); }
    }
  }

  /**
   Of an empty source, the destination becomes the first page of an empty database. It is as long as a source page,
   unless pages of the destination are smaller and it had fewer of them.
   */
  lemma FinishEmptyOk(g: Config, b: Backup, e: Env)
    requires IsAligned(g) && IsSource(g, []) && IsEnv(g, e)
    ensures var q := Finish(g, b, [], e);
            q.rc == Fatal || (q.rc == Done
              && |q.dest| == Min(g.pgszSrc, if |b.dest| < g.pgszDest then g.pgszDest else |b.dest|)
              && forall off :: 100 <= off < |q.dest| && off < g.pgszDest ==> q.dest[off] == e.newDb[off])
  {
    if !e.finishFails {
      var d := WriteAt(WriteAt(b.dest, 0, e.newDb), 0, e.head);
      EmptyCommit(g, d);
    }
  }

  lemma EmptyCommit(g: Config, d: seq<Byte>)
    requires IsAligned(g) && |d| >= g.pgszDest
    ensures Committed(g, d, [], 1) == d[..Min(g.pgszSrc, |d|)]
  {
    if g.pgszDest <= g.pgszSrc { LargePages(1, g.pgszSrc, g.pgszDest); }
  }

  // ---- Every event keeps the invariant ----

  lemma StepOk(g: Config, s: State, nPage: int, e: Env)
    requires Inv(g, s) && IsEnv(g, e)
    ensures var s' := Next(g, s, BackupStep(nPage, e));
            && Inv(g, s')
            && (!IsFatal(s.b.rc) && s'.b.rc == Done && s.src != [] ==> IsCopy(g, s.src, s'.b.dest))
  {
    if !IsFatal(s.b.rc) && Prepare(g, s.b, e).0 == Ok {
      var b := s.b.(rc := Ok, bDestLocked := true);
      CopyPagesOk(g, b, s.src, nPage, e.failAt, 0);
      StepEndOk(g, CopyPages(g, b, s.src, nPage, e.failAt, 0), s.src, e);
      StepIs(g, s.b, s.src, nPage, e);
    }
  }

  /** What a step does when it has copied its pages. */
  function StepEnd(g: Config, q: Backup, src: seq<Byte>, e: Env): Backup
    requires IsAligned(g) && IsSource(g, src) && IsEnv(g, e)
  {
    var n := NumPages(g, src);
    var r := q.(nPagecount := n, nRemaining := n + 1 - q.iNext);
    if q.rc != Ok then q else if q.iNext > n then Finish(g, r, src, e) else r.(isAttached := true)
  }

  lemma StepIs(g: Config, b: Backup, src: seq<Byte>, nPage: int, e: Env)
    requires IsAligned(g) && IsSource(g, src) && IsEnv(g, e) && b.iNext > 0
    requires !IsFatal(b.rc) && Prepare(g, b, e).0 == Ok
    ensures var q := CopyPages(g, b.(rc := Ok, bDestLocked := true), src, nPage, e.failAt, 0);
            Step(g, b, src, nPage, e) == StepEnd(g, q, src, e)
  {
    assert Prepare(g, b, e).1;
  }

  lemma StepEndOk(g: Config, q: Backup, src: seq<Byte>, e: Env)
    requires IsAligned(g) && IsSource(g, src) && IsEnv(g, e) && q.iNext > 0 && (q.rc == Ok || q.rc == Fatal)
    requires q.rc == Ok ==> Faithful(g, src, q.dest, Offset(q.iNext, g.pgszSrc))
    ensures var r := StepEnd(g, q, src, e);
            Inv(g, State(src, r)) && (r.rc == Done && src != [] ==> IsCopy(g, src, r.dest))
  {
    if q.rc == Ok && q.iNext > NumPages(g, src) { CompleteOk(g, q, src, e); }
  }

  lemma CompleteOk(g: Config, q: Backup, src: seq<Byte>, e: Env)
    requires IsAligned(g) && IsSource(g, src) && IsEnv(g, e) && q.iNext > NumPages(g, src) && q.rc == Ok
    requires Faithful(g, src, q.dest, Offset(q.iNext, g.pgszSrc))
    ensures var r := StepEnd(g, q, src, e);
            IsFatal(r.rc) && r.iNext == q.iNext && (r.rc == Done && src != [] ==> IsCopy(g, src, r.dest))
  {
    var n := NumPages(g, src);
    SourceEnd(g, src);
    OffsetMono(n + 1, q.iNext, g.pgszSrc);
    var r := q.(nPagecount := n, nRemaining := n + 1 - q.iNext);
    if src == [] { FinishEmptyOk(g, r, e); } else { FinishOk(g, r, src, e); }
  }

  /** Whatever the source has become, a backup that starts again has copied nothing that is no longer right. */
  ghost predicate Sound(g: Config, b: Backup, src: seq<Byte>) {
    Inv(g, State(src, b))
  }

  lemma RestartOk(g: Config, b: Backup, src: seq<Byte>)
    requires IsAligned(g) && IsSource(g, src)
    ensures Sound(g, Restart(b), src)
  {
    OffsetIs(1, g.pgszSrc, 0);
  }

  /** Where a page that may be written lies: inside the file, at its end, or behind the unused page at its end. */
  lemma WriteOffset(g: Config, src: seq<Byte>, p: nat)
    requires IsAligned(g) && IsSource(g, src) && CanWrite(g, src, p)
    ensures var base := Offset(p, g.pgszSrc);
            && (base + g.pgszSrc <= |src| || base == |src| || (base == |src| + g.pgszSrc && |src| == g.pendingByte))
  {
    var n := NumPages(g, src);
    SourceEnd(g, src);
    OffsetMono(p, if p <= n then n + 1 else p, g.pgszSrc);
    if p == n + 2 {
      NextOffset(n + 1, g.pgszSrc);
      PendingStart(g, g.pgszSrc);
    }
  }

  lemma WriteSource(g: Config, src: seq<Byte>, p: nat, data: seq<Byte>)
    requires IsAligned(g) && IsSource(g, src) && CanWrite(g, src, p) && |data| == g.pgszSrc
    ensures IsSource(g, WriteAt(src, Offset(p, g.pgszSrc), data))
  {
    var s, n := g.pgszSrc, NumPages(g, src);
    WriteOffset(g, src, p);
    Multiple(|src|, s);
    SourceEnd(g, src);
    if p > n {
      NextOffset(p, s);
      OffsetMultiple(p + 1, s);
    } else {
      OffsetMono(p, n + 1, s);
    }
  }

  lemma WriteOk(g: Config, s: State, p: nat, data: seq<Byte>, fails: bool)
    requires Inv(g, s) && CanWrite(g, s.src, p) && |data| == g.pgszSrc
    ensures Inv(g, Next(g, s, WritePage(p, data, fails)))
  {
    var base, limit := Offset(p, g.pgszSrc), Offset(s.b.iNext, g.pgszSrc);
    var src' := WriteAt(s.src, base, data);
    WriteSource(g, s.src, p, data);
    WriteOffset(g, s.src, p);
    if !IsFatal(s.b.rc) {
      if p < s.b.iNext {
        OnePageOk(g, s.b.dest, p, data, []);
        WriteFaithful(g, s.src, s.b.dest, limit, base, data);
        FaithfulPage(g, src', s.b.dest, OnePage(g, s.b.dest, p, data, []), limit, base, data);
      } else {
        OffsetMono(s.b.iNext, p, g.pgszSrc);
        WriteFaithful(g, s.src, s.b.dest, limit, base, data);
        assert Faithful(g, src', s.b.dest, limit);
      }
    }
  }

  /** Outside the written page the files stay alike: the unused page does not count. */
  lemma WriteFaithful(g: Config, src: seq<Byte>, dest: seq<Byte>, limit: int, base: nat, data: seq<Byte>)
    requires Faithful(g, src, dest, limit) && |data| == g.pgszSrc
    requires base + g.pgszSrc <= |src| || base == |src| || (base == |src| + g.pgszSrc && |src| == g.pendingByte)
    ensures var src' := WriteAt(src, base, data);
            && (forall off :: base <= off < base + g.pgszSrc && off < |src'| ==> src'[off] == data[off - base])
            && (forall off ::
                  0 <= off < limit && off < |src'| && !(base <= off < base + g.pgszSrc) && !Skipped(g, off) ==>
                  off < |dest| && (off >= 100 ==> dest[off] == src'[off]))
  {
    var src' := WriteAt(src, base, data);
    forall off | 0 <= off < limit && off < |src'| && !(base <= off < base + g.pgszSrc) && !Skipped(g, off)
      ensures off < |dest| && (off >= 100 ==> dest[off] == src'[off])
    {
      assert off < |src|;
    }
  }

  lemma TruncateOk(g: Config, s: State, n: nat)
    requires Inv(g, s) && n <= NumPages(g, s.src) && n != PendingPage(g, g.pgszSrc)
    ensures Inv(g, Next(g, s, Truncate(n)))
  {
    PagesOf(g, s.src, n);
  }

  lemma PagesOf(g: Config, src: seq<Byte>, n: nat)
    requires IsAligned(g) && IsSource(g, src) && n <= NumPages(g, src)
    ensures n * g.pgszSrc <= |src| && n * g.pgszSrc % g.pgszSrc == 0 && n * g.pgszSrc / g.pgszSrc == n
  {
    Multiple(|src|, g.pgszSrc);
    MulMono(g.pgszSrc, n, NumPages(g, src));
    DivModUnique(n * g.pgszSrc, g.pgszSrc, n, 0);
  }

  lemma EventOk(g: Config, s: State, ev: Event)
    requires Inv(g, s) && CanHappen(g, s, ev)
    ensures Inv(g, Next(g, s, ev))
  {
    match ev
    case BackupStep(nPage, env) => StepOk(g, s, nPage, env);
    case WritePage(p, data, fails) => WriteOk(g, s, p, data, fails);
    case Truncate(n) => TruncateOk(g, s, n);
    case External(src) =>
  }

  // ---- Runs ----

  /** A backup from its start, with any events in any order. */
  ghost predicate IsRun(g: Config, ss: seq<State>, events: seq<Event>) {
    && IsAligned(g) && |ss| == |events| + 1
    && IsSource(g, ss[0].src) && (exists dest :: ss[0].b == Start(dest))
    && forall k :: 0 <= k < |events| ==>
      && IsSource(g, ss[k].src) && ss[k].b.iNext > 0 && CanHappen(g, ss[k], events[k])
      && ss[k + 1] == Next(g, ss[k], events[k])
  }

  lemma RunInv(g: Config, ss: seq<State>, events: seq<Event>, k: nat)
    requires IsRun(g, ss, events) && k < |ss|
    ensures Inv(g, ss[k])
  {
    if k > 0 {
      RunInv(g, ss, events, k - 1);
      assert ss[k - 1 + 1] == Next(g, ss[k - 1], events[k - 1]);
      EventOk(g, ss[k - 1], events[k - 1]);
    }
  }

  /**
   In every run, when a step reports completion, the destination is the source of that moment:
   same size, every byte at its own offset, the header and the source's unused page aside.
   */
  lemma DoneIsCopy(g: Config, ss: seq<State>, events: seq<Event>, k: nat)
    requires IsRun(g, ss, events) && k < |events| && events[k].BackupStep?
    requires !IsFatal(ss[k].b.rc) && ss[k + 1].b.rc == Done && ss[k].src != []
    ensures ss[k + 1].src == ss[k].src && IsCopy(g, ss[k + 1].src, ss[k + 1].b.dest)
  {
    RunInv(g, ss, events, k);
    assert ss[k + 1] == Next(g, ss[k], events[k]);
    StepOk(g, ss[k], events[k].nPage, events[k].env);
  }

  /** While it goes on, every page below iNext that the source still has is faithfully copied. */
  lemma CopiedSoFar(g: Config, ss: seq<State>, events: seq<Event>, k: nat, off: nat)
    requires IsRun(g, ss, events) && k < |ss| && !IsFatal(ss[k].b.rc)
    requires 100 <= off < |ss[k].src| && off / g.pgszSrc + 1 < ss[k].b.iNext && !Skipped(g, off)
    ensures off < |ss[k].b.dest| && ss[k].b.dest[off] == ss[k].src[off]
  {
    RunInv(g, ss, events, k);
    var p := off / g.pgszSrc + 1;
    OffsetMono(p, ss[k].b.iNext, g.pgszSrc);
    InPage(off, g.pgszSrc);
  }

  lemma InPage(off: nat, pgsz: nat)
    requires pgsz > 0
    ensures Offset(off / pgsz + 1, pgsz) <= off < Offset(off / pgsz + 1, pgsz) + pgsz
  {
    OffsetIn(off, pgsz);
  }

  /** After completion nothing that happens to the source reaches the destination. */
  lemma DoneIsFinal(g: Config, ss: seq<State>, events: seq<Event>, k: nat, l: nat)
    requires IsRun(g, ss, events) && k <= l < |ss| && ss[k].b.rc == Done
    ensures ss[l].b.rc == Done && ss[l].b.dest == ss[k].b.dest
    decreases l
  {
    if k < l {
      DoneIsFinal(g, ss, events, k, l - 1);
      assert ss[l - 1 + 1] == Next(g, ss[l - 1], events[l - 1]);
    }
  }

  // ---- The size of the destination ----

  lemma CeilDiv(n: nat, r: nat)
    requires n > 0 && r > 0
    ensures var c := (n + r - 1) / r; c > 0 && c * r >= n && (c - 1) * r < n
  {
    var c := (n + r - 1) / r;
    assert n + r - 1 == c * r + (n + r - 1) % r;
    assert (c - 1) * r == c * r - r && (1 - c) * r == r - c * r;
    if c < 1 { MulGe(1 - c, r); }
  }

  /** Both scaled by the source page size. */
  lemma CeilBytes(n: nat, s: nat, d: nat)
    requires n > 0 && 0 < s <= d && d % s == 0
    ensures d / s > 0
    ensures var c := (n + d / s - 1) / (d / s); c > 0 && c * d >= s * n && (c - 1) * d < s * n
  {
    var r := d / s;
    Multiple(d, s);
    DivPositive(d, s);
    CeilDiv(n, r);
    var c := (n + r - 1) / r;
    assert c * d == (c * r) * s by { assert c * (r * s) == (c * r) * s; }
    assert (c - 1) * d == ((c - 1) * r) * s by { assert (c - 1) * (r * s) == ((c - 1) * r) * s; }
    assert (c * r - n) * s == (c * r) * s - n * s;
    assert (n - (c - 1) * r) * s == n * s - ((c - 1) * r) * s;
    MulGe(n - (c - 1) * r, s);
    if c * r > n { MulGe(c * r - n, s); }
  }

  /** The final page count is positive, and covers the source unless the source ends in the unused destination page. */
  lemma DestPagesOk(g: Config, n: nat)
    requires IsAligned(g) && n > 0
    ensures DestPages(g, n) > 0
    ensures g.pgszSrc < g.pgszDest ==>
      var t, iSize := DestPages(g, n), g.pgszSrc * n;
      || t * g.pgszDest >= iSize
      || (t == PendingPage(g, g.pgszDest) - 1 && g.pendingByte <= iSize <= g.pendingByte + g.pgszDest)
  {
    var s, d := g.pgszSrc, g.pgszDest;
    if s < d {
      CeilBytes(n, s, d);
      PendingStart(g, d);
      DivPositive(g.pendingByte, d);
      Multiple(g.pendingByte, d);
      MulStep(g.pendingByte / d, d);
    } else {
      DivPositive(s, d);
      MulGe(n, s / d);
    }
  }

  lemma DivPositive(s: nat, d: nat)
    requires 0 < d <= s
    ensures s / d > 0
  {
  }

  // ---- The progress counters ----

  /**
   After a step that copied pages, nRemaining is the number of source pages not yet copied exactly
   when the source has not shrunk below the pages already copied; otherwise it is negative.
   */
  lemma RemainingExact(g: Config, b: Backup, src: seq<Byte>, nPage: int, e: Env)
    requires IsAligned(g) && IsSource(g, src) && IsEnv(g, e) && b.iNext > 0 && !IsFatal(b.rc)
    requires var q := Step(g, b, src, nPage, e);
             Prepare(g, b, e).0 == Ok && (q.rc == Ok || q.rc == Done)
    ensures var q := Step(g, b, src, nPage, e);
            var left := if q.iNext <= NumPages(g, src) then NumPages(g, src) + 1 - q.iNext else 0;
            && q.nPagecount == NumPages(g, src)
            && (q.nRemaining == left <==> b.iNext <= NumPages(g, src) + 1)
            && (b.iNext > NumPages(g, src) + 1 ==> q.nRemaining < 0)
  {
    var b' := b.(rc := Ok, bDestLocked := true);
    CopyPagesEnd(g, b', src, nPage, e.failAt, 0);
    var q := CopyPages(g, b', src, nPage, e.failAt, 0);
    StepCounts(g, b, src, nPage, e, q);
  }

  lemma StepCounts(g: Config, b: Backup, src: seq<Byte>, nPage: int, e: Env, q: Backup)
    requires IsAligned(g) && IsSource(g, src) && IsEnv(g, e) && b.iNext > 0 && !IsFatal(b.rc)
    requires Prepare(g, b, e).0 == Ok && Step(g, b, src, nPage, e).rc != Fatal
    requires q == CopyPages(g, b.(rc := Ok, bDestLocked := true), src, nPage, e.failAt, 0)
    ensures var r, n := Step(g, b, src, nPage, e), NumPages(g, src);
            q.rc == Ok ==> r.iNext == q.iNext && r.nPagecount == n && r.nRemaining == n + 1 - q.iNext
    ensures q.rc != Ok ==> Step(g, b, src, nPage, e) == q
  {
  }

  lemma {:induction false} CopyPagesEnd(g: Config, b: Backup, src: seq<Byte>, nPage: int, failAt: int, ii: nat)
    requires IsAligned(g) && IsSource(g, src) && b.iNext > 0
    ensures var q := CopyPages(g, b, src, nPage, failAt, ii);
            && (if b.iNext > NumPages(g, src) + 1 then q.iNext == b.iNext
                else b.iNext <= q.iNext <= NumPages(g, src) + 1)
            && (b.rc == Ok ==> q.rc == Ok || q.rc == Fatal)
    decreases if b.iNext <= NumPages(g, src) then NumPages(g, src) + 1 - b.iNext else 0
  {
    if (nPage < 0 || ii < nPage) && b.iNext <= NumPages(g, src) && b.rc == Ok {
      CopyPagesEnd(g, CopyNext(g, b, src, ii == failAt), src, nPage, failAt, ii + 1);
    }
  }

  // ---- Refusals ----

  /** Something stands in the way of a step before it copies anything. */
  predicate IsRefused(g: Config, b: Backup, e: Env) {
    || e.inWrite || e.beginSrc != Ok
    || (!b.bDestLocked && (e.destNoMem || e.beginDest != Ok))
    || (e.destFixed && g.pgszSrc != g.pgszDest)
  }

  /** Nothing but the result code and, if it could be had, the lock on the destination is different. */
  predicate IsUntouched(b: Backup, q: Backup, e: Env) {
    && q.dest == b.dest && q.iNext == b.iNext && q.isAttached == b.isAttached
    && q.nRemaining == b.nRemaining && q.nPagecount == b.nPagecount
    && (q.bDestLocked <==> b.bDestLocked || (!e.inWrite && e.beginSrc == Ok && !e.destNoMem && e.beginDest == Ok))
  }

  /** Each refusal has its own result, the first that applies, and leaves the backup as it was. */
  lemma StepRefused(g: Config, b: Backup, src: seq<Byte>, nPage: int, e: Env)
    requires IsAligned(g) && IsSource(g, src) && IsEnv(g, e) && b.iNext > 0 && !IsFatal(b.rc) && IsRefused(g, b, e)
    ensures var q := Step(g, b, src, nPage, e);
            && IsUntouched(b, q, e)
            && q.rc == if e.inWrite then Busy
                       else if e.beginSrc != Ok then e.beginSrc
                       else if !b.bDestLocked && e.destNoMem then Fatal
                       else if !b.bDestLocked && e.beginDest != Ok then e.beginDest
                       else Fatal
  {
  }

  /** A step that copies a page, reports success or completion, or attaches the backup, has not been refused. */
  lemma StepActs(g: Config, b: Backup, src: seq<Byte>, nPage: int, e: Env)
    requires IsAligned(g) && IsSource(g, src) && IsEnv(g, e) && b.iNext > 0 && !IsFatal(b.rc)
    requires var q := Step(g, b, src, nPage, e);
             q.dest != b.dest || q.iNext != b.iNext || q.isAttached != b.isAttached || q.rc == Ok || q.rc == Done
    ensures !IsRefused(g, b, e) && Step(g, b, src, nPage, e).bDestLocked
  {
    if IsRefused(g, b, e) {
      StepRefused(g, b, src, nPage, e);
    } else {
      StepIs(g, b, src, nPage, e);
      CopyPagesLock(g, b.(rc := Ok, bDestLocked := true), src, nPage, e.failAt, 0);
    }
  }

  lemma {:induction false} CopyPagesLock(g: Config, b: Backup, src: seq<Byte>, nPage: int, failAt: int, ii: nat)
    requires IsAligned(g) && IsSource(g, src) && b.iNext > 0
    ensures CopyPages(g, b, src, nPage, failAt, ii).bDestLocked == b.bDestLocked
    decreases if b.iNext <= NumPages(g, src) then NumPages(g, src) + 1 - b.iNext else 0
  {
    if (nPage < 0 || ii < nPage) && b.iNext <= NumPages(g, src) && b.rc == Ok {
      CopyPagesLock(g, CopyNext(g, b, src, ii == failAt), src, nPage, failAt, ii + 1);
    }
  }

  /**
   After SQLITE_BUSY or SQLITE_LOCKED the next step does what it would have done otherwise; after any other error,
   nothing.
   */
  lemma RetryOrStop(g: Config, b: Backup, src: seq<Byte>, nPage: int, e: Env)
    requires IsAligned(g) && IsSource(g, src) && IsEnv(g, e) && b.iNext > 0
    ensures b.rc == Busy ==> Step(g, b, src, nPage, e) == Step(g, b.(rc := Ok), src, nPage, e)
    ensures b.rc == Fatal || b.rc == Done ==> Step(g, b, src, nPage, e) == b
  {
  }

  /** Only pages that have been copied are copied again when they change, and not after an error. */
  lemma UpdateOnly(g: Config, b: Backup, p: nat, data: seq<Byte>, fails: bool)
    requires IsAligned(g) && |data| == g.pgszSrc && p > 0 && p != PendingPage(g, g.pgszSrc)
    ensures var q := Update(g, b, p, data, fails);
            if b.rc == Fatal || b.rc == Done || b.iNext <= p then q == b
            else if fails then q == b.(rc := Fatal)
            else q == b.(dest := q.dest) && Copied(g, b.dest, q.dest, Offset(p, g.pgszSrc), data)
  {
    OnePageOk(g, b.dest, p, data, []);
  }

  // ---- Failures ----

  /** A page that fails ends the loop with an error, after it has been passed; the pages before it have been copied. */
  lemma {:induction false} PageFails(g: Config, b: Backup, src: seq<Byte>, nPage: int, t: nat, ii: nat)
    requires IsAligned(g) && IsSource(g, src) && b.iNext > 0 && b.rc == Ok && (nPage < 0 || ii + t < nPage)
    requires b.iNext + t <= NumPages(g, src) && b.iNext + t != PendingPage(g, g.pgszSrc)
    ensures var q := CopyPages(g, b, src, nPage, ii + t, ii);
            && q.rc == Fatal && q.iNext == b.iNext + t + 1
            && q.dest == CopyPages(g, b, src, ii + t, -1, ii).dest
            && q.isAttached == b.isAttached && q.nRemaining == b.nRemaining && q.nPagecount == b.nPagecount
    decreases t
  {
    if t > 0 {
      PageFails(g, CopyNext(g, b, src, false), src, nPage, t - 1, ii + 1);
    } else {
      assert CopyPages(g, b, src, ii, -1, ii) == b;
    }
  }

  /** A step in which a page fails reports the error, and its counters stay as they were. */
  lemma StepFails(g: Config, b: Backup, src: seq<Byte>, nPage: int, e: Env)
    requires IsAligned(g) && IsSource(g, src) && IsEnv(g, e) && b.iNext > 0 && !IsFatal(b.rc) && !IsRefused(g, b, e)
    requires 0 <= e.failAt && (nPage < 0 || e.failAt < nPage) && b.iNext + e.failAt <= NumPages(g, src)
    requires b.iNext + e.failAt != PendingPage(g, g.pgszSrc)
    ensures var q := Step(g, b, src, nPage, e);
            && q.rc == Fatal && q.iNext == b.iNext + e.failAt + 1
            && q.isAttached == b.isAttached && q.nRemaining == b.nRemaining && q.nPagecount == b.nPagecount
  {
    StepIs(g, b, src, nPage, e);
    PageFails(g, b.(rc := Ok, bDestLocked := true), src, nPage, e.failAt, 0);
  }

  /**
   A step whose commit fails does not report completion; one that completes leaves the new header in the destination.
   */
  lemma StepCommits(g: Config, b: Backup, src: seq<Byte>, nPage: int, e: Env)
    requires IsAligned(g) && IsSource(g, src) && IsEnv(g, e) && b.iNext > 0 && !IsFatal(b.rc)
    requires Step(g, b, src, nPage, e).rc == Done
    ensures !e.finishFails
    ensures var q := Step(g, b, src, nPage, e);
            forall i :: 0 <= i < 100 && i < |q.dest| ==> q.dest[i] == e.head[i]
  {
    StepActs(g, b, src, nPage, e);
    StepIs(g, b, src, nPage, e);
    var q := CopyPages(g, b.(rc := Ok, bDestLocked := true), src, nPage, e.failAt, 0);
    CopyPagesEnd(g, b.(rc := Ok, bDestLocked := true), src, nPage, e.failAt, 0);
    FinishHeader(g, q, src, e);
  }

  lemma FinishHeader(g: Config, q: Backup, src: seq<Byte>, e: Env)
    requires IsAligned(g) && IsSource(g, src) && IsEnv(g, e) && q.rc == Ok && StepEnd(g, q, src, e).rc == Done
    ensures !e.finishFails
    ensures var r := StepEnd(g, q, src, e); forall i :: 0 <= i < 100 && i < |r.dest| ==> r.dest[i] == e.head[i]
  {
    var d := if src == [] then WriteAt(q.dest, 0, e.newDb) else q.dest;
    CommitHeader(g, WriteAt(d, 0, e.head), src, if src == [] then 1 else NumPages(g, src));
  }

  /** Committing does not touch the start of the file. */
  lemma CommitHeader(g: Config, dest: seq<Byte>, src: seq<Byte>, n: nat)
    requires IsAligned(g) && |dest| >= 100
    ensures var r := Committed(g, dest, src, n); forall i :: 0 <= i < 100 && i < |r| ==> r[i] == dest[i]
  {
    if g.pgszSrc < g.pgszDest {
      var lo, iEnd := g.pendingByte + g.pgszSrc, Min(g.pendingByte + g.pgszDest, g.pgszSrc * n);
      WritesBehind(g, dest, src, lo, iEnd);
    }
  }

  lemma {:induction false} WritesBehind(g: Config, f: seq<Byte>, src: seq<Byte>, iOff: nat, iEnd: int)
    requires IsAligned(g) && iOff >= 100 && |f| >= 100
    ensures var r := DirectWrites(g, f, src, iOff, iEnd); |r| >= |f| && forall i :: 0 <= i < 100 ==> r[i] == f[i]
    decreases if iOff < iEnd then iEnd - iOff else 0
  {
    if iOff < iEnd && iOff + g.pgszSrc <= |src| {
      WritesBehind(g, WriteAt(f, iOff, src[iOff..iOff + g.pgszSrc]), src, iOff + g.pgszSrc, iEnd);
    }
  }

  /** Four bytes as a number, most significant byte first. */
  function Get4(r: seq<Byte>): int
    requires |r| == 4
  {
    var a: int, b: int, c: int, d: int := r[0], r[1], r[2], r[3];
    a * 0x100_0000 + b * 0x1_0000 + c * 0x100 + d
  }

  lemma Shift(n: nat)
    ensures n / 0x1_0000 == n / 0x100 / 0x100 && n / 0x100_0000 == n / 0x1_0000 / 0x100
  {
  }

  lemma Digits(n: nat, a: nat, b: nat, c: nat, q: nat)
    requires a == n / 0x100 && b == a / 0x100 && c == b / 0x100 && q == c / 0x100
    ensures n == q * 0x1_0000_0000 + c % 0x100 * 0x100_0000 + b % 0x100 * 0x1_0000 + a % 0x100 * 0x100 + n % 0x100
  {
  }

  lemma FourBytes(n: nat)
    ensures Get4(Put4(n)) == n % 0x1_0000_0000
  {
    var a, b, c := n / 0x100, n / 0x1_0000, n / 0x100_0000;
    var q := c / 0x100;
    Shift(n);
    Digits(n, a, b, c, q);
    DivModUnique(n, 0x1_0000_0000, q, n - q * 0x1_0000_0000);
  }

  /** Copying page 1 stores the number of source pages at offset 28. */
  lemma SizeInHeader(g: Config, b: Backup, src: seq<Byte>)
    requires IsAligned(g) && IsSource(g, src) && b.iNext == 1 <= NumPages(g, src)
    ensures var d := CopyNext(g, b, src, false).dest;
            |d| >= 32 && Get4(d[28..32]) == NumPages(g, src) % 0x1_0000_0000
  {
    OffsetIs(1, g.pgszSrc, 0);
    PendingStart(g, g.pgszSrc);
    DivPositive(g.pendingByte, g.pgszSrc);
    FourBytes(NumPages(g, src));
    FirstPageHeader(g, b.dest, Page(g, src, 1), Put4(NumPages(g, src)));
  }

  lemma FirstPageHeader(g: Config, dest: seq<Byte>, data: seq<Byte>, header: seq<Byte>)
    requires IsAligned(g) && |data| == g.pgszSrc && |header| == 4 && Offset(1, g.pgszSrc) == 0
    ensures var d := OnePage(g, dest, 1, data, header); |d| >= 32 && d[28..32] == header
  {
    SpanCovers(g, |dest|, g.pgszSrc);
  }

  lemma SpanCovers(g: Config, length: nat, hi: nat)
    requires IsAligned(g) && hi == g.pgszSrc
    ensures SpanLength(g, length, 0, hi) >= 32
  {
    PageFits(g, 1);
    OffsetIs(1, g.pgszSrc, 0);
  }

  // ---- Runs that exist ----

  /** Nothing stands in the way of a step. */
  predicate IsQuiet(g: Config, e: Env) {
    && IsEnv(g, e) && !e.inWrite && e.beginSrc == Ok && !e.destNoMem && e.beginDest == Ok
    && (e.destFixed ==> g.pgszSrc == g.pgszDest) && e.failAt < 0 && !e.finishFails
  }

  /** Without failures, a loop copies as many pages as it is told, or all. */
  lemma {:induction false} CopiesAll(g: Config, b: Backup, src: seq<Byte>, nPage: int, ii: nat)
    requires IsAligned(g) && IsSource(g, src) && b.iNext > 0 && b.rc == Ok
    ensures var q, n := CopyPages(g, b, src, nPage, -1, ii), NumPages(g, src);
            && q.rc == Ok
            && q.iNext == if b.iNext > n || (0 <= nPage <= ii) then b.iNext
                          else if nPage < 0 || b.iNext + nPage - ii > n then n + 1 else b.iNext + nPage - ii
    decreases if b.iNext <= NumPages(g, src) then NumPages(g, src) + 1 - b.iNext else 0
  {
    if (nPage < 0 || ii < nPage) && b.iNext <= NumPages(g, src) {
      CopiesAll(g, CopyNext(g, b, src, ii == -1), src, nPage, ii + 1);
    }
  }

  lemma QuietStep(g: Config, b: Backup, src: seq<Byte>, nPage: int, e: Env)
    requires IsAligned(g) && IsSource(g, src) && IsQuiet(g, e) && e.failAt == -1 && b.iNext > 0 && !IsFatal(b.rc)
    ensures var r, n := Step(g, b, src, nPage, e), NumPages(g, src);
            && r.iNext == (if b.iNext > n || nPage == 0 then b.iNext
                           else if nPage < 0 || b.iNext + nPage > n then n + 1 else b.iNext + nPage)
            && r.rc == (if r.iNext > n then Done else Ok)
            && r.nRemaining == n + 1 - r.iNext
  {
    CopiesAll(g, b.(rc := Ok, bDestLocked := true), src, nPage, 0);
    StepIs(g, b, src, nPage, e);
  }

  /** For all page sizes that there are, one undisturbed step that copies all pages ends with a copy of the source. */
  lemma OneStepCopies(g: Config, src: seq<Byte>, dest: seq<Byte>, e: Env) returns (ss: seq<State>, events: seq<Event>)
    requires IsConfig(g) && IsQuiet(g, e) && e.failAt == -1
    requires src != [] && |src| % g.pgszSrc == 0 && |src| / g.pgszSrc != g.pendingByte / g.pgszSrc + 1
    ensures IsRun(g, ss, events) && events == [BackupStep(-1, e)] && ss[0] == State(src, Start(dest))
    ensures ss[1].b.rc == Done && ss[1].b.nRemaining == 0 && IsCopy(g, src, ss[1].b.dest)
  {
    PageSizesAligned(g);
    PendingStart(g, g.pgszSrc);
    events := [BackupStep(-1, e)];
    ss := [State(src, Start(dest)), Next(g, State(src, Start(dest)), events[0])];
    QuietStep(g, Start(dest), src, -1, e);
    DoneIsCopy(g, ss, events, 0);
  }

  /** A run in which the last step leaves fewer than no pages to copy: two are copied, and all but one go away. */
  lemma NegativeRemaining(g: Config, src: seq<Byte>, dest: seq<Byte>, e: Env)
    returns (ss: seq<State>, events: seq<Event>)
    requires IsAligned(g) && IsSource(g, src) && NumPages(g, src) == 3 && IsQuiet(g, e) && e.failAt == -1
    ensures IsRun(g, ss, events) && events == [BackupStep(2, e), Truncate(1), BackupStep(1, e)]
    ensures ss[0] == State(src, Start(dest)) && ss[3].b.rc == Done && ss[3].b.nRemaining == -1
  {
    var s0 := State(src, Start(dest));
    events := [BackupStep(2, e), Truncate(1), BackupStep(1, e)];
    QuietStep(g, s0.b, src, 2, e);
    var s1 := Next(g, s0, events[0]);
    PagesOf(g, src, 1);
    PendingStart(g, g.pgszSrc);
    DivPositive(g.pendingByte, g.pgszSrc);
    var s2 := Next(g, s1, events[1]);
    QuietStep(g, s2.b, s2.src, 1, e);
    ss := [s0, s1, s2, Next(g, s2, events[2])];
  }
}
