/**
 Online backup: pages of a source database are copied, a few per step, into a destination that
 may have another page size, while the source goes on changing. Both files are byte sequences.
 */
module Backup {
  import opened Division

  type Byte = x: int | 0 <= x < 256

  /** Page sizes of source and destination, and the offset of the byte whose page is never used. */
  datatype Config = Config(pgszSrc: nat, pgszDest: nat, pendingByte: nat)

  predicate IsPageSize(n: nat) {
    n in {512, 1024, 2048, 4096, 8192, 16384, 32768, 65536}
  }

  /** Page sizes are powers of two and the unused byte starts a page of any size. */
  predicate IsConfig(g: Config) {
    && IsPageSize(g.pgszSrc) && IsPageSize(g.pgszDest)
    && g.pendingByte >= 65536 && g.pendingByte % 65536 == 0
  }

  /** What the copying relies on: one page size divides the other, and both the unused byte's offset. */
  predicate IsAligned(g: Config) {
    && 512 <= g.pgszSrc <= g.pendingByte && 512 <= g.pgszDest <= g.pendingByte
    && (if g.pgszSrc <= g.pgszDest then g.pgszDest % g.pgszSrc == 0 else g.pgszSrc % g.pgszDest == 0)
    && g.pendingByte % g.pgszSrc == 0 && g.pendingByte % g.pgszDest == 0
  }

  function Min(x: int, y: int): int { if x < y then x else y }

  function PendingPage(g: Config, pgsz: nat): nat
    requires pgsz > 0
  {
    Quotient(g.pendingByte, pgsz) + 1
  }

  // ---- Files ----

  function Zeros(n: nat): (z: seq<Byte>)
    ensures |z| == n && forall i :: 0 <= i < n ==> z[i] == 0
  {
    seq(n, i => 0)
  }

  /** Writes data at an offset; a gap behind the end of the file reads as zeros. */
  function WriteAt(f: seq<Byte>, off: nat, data: seq<Byte>): (r: seq<Byte>)
    ensures |r| == if |f| < off + |data| then off + |data| else |f|
    ensures forall i :: 0 <= i < |r| ==>
      r[i] == if off <= i < off + |data| then data[i - off] else if i < |f| then f[i] else 0
  {
    var w := if |f| < off + |data| then f + Zeros(off + |data| - |f|) else f;
    w[..off] + data + w[off + |data|..]
  }

  /** Where page p of a file starts. */
  function Offset(p: nat, pgsz: nat): nat
    requires p > 0
  {
    Times(p - 1, pgsz)
  }

  function Put4(n: nat): (r: seq<Byte>)
    ensures |r| == 4
  {
    [n / 0x100_0000 % 256, n / 0x1_0000 % 256, n / 0x100 % 256, n % 256]
  }

  // ---- The backup object ----

  /** Fatal stands for every error but SQLITE_BUSY and SQLITE_LOCKED, which are Busy. */
  datatype Rc = Ok | Busy | Done | Fatal

  predicate IsFatal(rc: Rc) { rc != Ok && rc != Busy }

  datatype Backup = Backup(
    iNext: nat, rc: Rc, isAttached: bool, bDestLocked: bool,
    nRemaining: int, nPagecount: nat, dest: seq<Byte>)

  /** A source file is whole pages, and its last page is not the unused one. */
  predicate IsSource(g: Config, src: seq<Byte>)
    requires IsAligned(g)
  {
    |src| % g.pgszSrc == 0 && |src| / g.pgszSrc != PendingPage(g, g.pgszSrc)
  }

  function NumPages(g: Config, src: seq<Byte>): nat
    requires IsAligned(g)
  {
    |src| / g.pgszSrc
  }

  lemma PageInFile(n: nat, pgsz: nat, p: nat)
    requires pgsz > 0 && n % pgsz == 0 && 1 <= p <= n / pgsz
    ensures Offset(p, pgsz) + pgsz <= n
  {
    assert n == (n / pgsz) * pgsz;
    TimesIsProduct(n / pgsz, pgsz);
    TimesMono(p, n / pgsz, pgsz);
  }

  function Page(g: Config, src: seq<Byte>, p: nat): (data: seq<Byte>)
    requires IsAligned(g) && |src| % g.pgszSrc == 0 && 1 <= p <= NumPages(g, src)
    ensures |data| == g.pgszSrc
  {
    PageInFile(|src|, g.pgszSrc, p);
    src[Offset(p, g.pgszSrc)..Offset(p, g.pgszSrc) + g.pgszSrc]
  }

  predicate InSrcPending(g: Config, off: int) {
    g.pendingByte <= off < g.pendingByte + g.pgszSrc
  }

  predicate InDestPending(g: Config, off: int) {
    g.pendingByte <= off < g.pendingByte + g.pgszDest
  }

  function RoundUp(off: nat, pgsz: nat): nat
    requires pgsz > 0
  {
    if off % pgsz == 0 then off else off - off % pgsz + pgsz
  }

  /** The length of the destination after the bytes up to offset hi of a source page have been copied. */
  function SpanLength(g: Config, length: nat, base: nat, hi: nat): nat
    requires g.pgszDest > 0
  {
    if hi <= base || InDestPending(g, hi - 1) || RoundUp(hi, g.pgszDest) <= length then length
    else RoundUp(hi, g.pgszDest)
  }

  /**
   The destination after the bytes up to offset hi of a source page at offset base have been
   copied: each to its own offset, but none into the unused page. A copy of page 1 also stores
   the source's size at offset 28.
   */
  function Span(g: Config, dest: seq<Byte>, base: nat, hi: nat, data: seq<Byte>, header: seq<Byte>): (r: seq<Byte>)
    requires g.pgszDest > 0 && hi <= base + |data|
    ensures |r| == SpanLength(g, |dest|, base, hi)
  {
    seq(SpanLength(g, |dest|, base, hi), i requires 0 <= i =>
      if base == 0 < hi && 28 <= i < 28 + |header| then header[i - 28]
      else if base <= i < hi && !InDestPending(g, i) then data[i - base]
      else if i < |dest| then dest[i]
      else 0)
  }

  /** Copies source page p. */
  function OnePage(g: Config, dest: seq<Byte>, p: nat, data: seq<Byte>, header: seq<Byte>): seq<Byte>
    requires IsAligned(g) && |data| == g.pgszSrc && p > 0
  {
    Span(g, dest, Offset(p, g.pgszSrc), Offset(p, g.pgszSrc) + g.pgszSrc, data, header)
  }

  /** How the outside world answers during one step. */
  datatype Env = Env(
    inWrite: bool,        // the source has a write transaction open
    beginSrc: Rc,         // result of opening a read transaction on the source
    destNoMem: bool,      // setting the destination's page size ran out of memory
    beginDest: Rc,        // result of opening the write transaction on the destination
    destFixed: bool,      // the destination is in WAL mode or in memory
    failAt: int,          // which page copied by this step fails, if any
    finishFails: bool,    // committing the destination fails
    newDb: seq<Byte>,     // the first page of a new, empty database
    head: seq<Byte>)      // the header that the commit leaves in the destination

  predicate IsEnv(g: Config, e: Env) {
    && e.beginSrc != Done && e.beginDest != Done
    && |e.newDb| == g.pgszDest && |e.head| == 100
  }

  /** The locks a step needs; it stops at the first that it does not get. */
  function Prepare(g: Config, b: Backup, e: Env): (Rc, bool)
  {
    if e.inWrite then (Busy, b.bDestLocked)
    else if e.beginSrc != Ok then (e.beginSrc, b.bDestLocked)
    else if !b.bDestLocked && e.destNoMem then (Fatal, false)
    else if !b.bDestLocked && e.beginDest != Ok then (e.beginDest, false)
    else if e.destFixed && g.pgszSrc != g.pgszDest then (Fatal, true)
    else (Ok, true)
  }

  /** Copies pages iNext, iNext+1, ... until nPage are done (nPage < 0: all), the source ends, or one fails. */
  function CopyPages(g: Config, b: Backup, src: seq<Byte>, nPage: int, failAt: int, ii: nat): Backup
    requires IsAligned(g) && IsSource(g, src) && b.iNext > 0
    decreases if b.iNext <= NumPages(g, src) then NumPages(g, src) + 1 - b.iNext else 0
  {
    if (nPage < 0 || ii < nPage) && b.iNext <= NumPages(g, src) && b.rc == Ok then
      CopyPages(g, CopyNext(g, b, src, ii == failAt), src, nPage, failAt, ii + 1)
    else b
  }

  function CopyNext(g: Config, b: Backup, src: seq<Byte>, fails: bool): (q: Backup)
    requires IsAligned(g) && IsSource(g, src) && 1 <= b.iNext <= NumPages(g, src)
    ensures q.iNext == b.iNext + 1
  {
    var q := b.(iNext := b.iNext + 1);
    if b.iNext == PendingPage(g, g.pgszSrc) then q
    else if fails then q.(rc := Fatal)
    else q.(dest := OnePage(g, b.dest, b.iNext, Page(g, src, b.iNext), Put4(NumPages(g, src))))
  }

  /** How many pages the destination is to have, for a source of nSrcPage pages. */
  function DestPages(g: Config, nSrcPage: nat): nat
    requires IsAligned(g)
  {
    if g.pgszSrc < g.pgszDest then
      var ratio := g.pgszDest / g.pgszSrc;
      var n := (nSrcPage + ratio - 1) / ratio;
      if n == PendingPage(g, g.pgszDest) then n - 1 else n
    else nSrcPage * (g.pgszSrc / g.pgszDest)
  }

  /** The source pages that share the destination's unused page are written straight into the file. */
  function DirectWrites(g: Config, f: seq<Byte>, src: seq<Byte>, iOff: nat, iEnd: int): seq<Byte>
    requires IsAligned(g)
    decreases if iOff < iEnd then iEnd - iOff else 0
  {
    if iOff >= iEnd || iOff + g.pgszSrc > |src| then f
    else DirectWrites(g, WriteAt(f, iOff, src[iOff..iOff + g.pgszSrc]), src, iOff + g.pgszSrc, iEnd)
  }

  /** The destination file when the copy is complete and committed. */
  function Committed(g: Config, dest: seq<Byte>, src: seq<Byte>, nSrcPage: nat): seq<Byte>
    requires IsAligned(g)
  {
    if g.pgszSrc < g.pgszDest then
      var iSize := g.pgszSrc * nSrcPage;
      var f := DirectWrites(g, dest, src, g.pendingByte + g.pgszSrc, Min(g.pendingByte + g.pgszDest, iSize));
      if |f| > iSize then f[..iSize] else f
    else
      var n := DestPages(g, nSrcPage) * g.pgszDest;
      if n <= |dest| then dest[..n] else dest
  }

  function Finish(g: Config, b: Backup, src: seq<Byte>, e: Env): Backup
    requires IsAligned(g) && IsSource(g, src) && IsEnv(g, e)
  {
    if e.finishFails then b.(rc := Fatal)
    else
      var d := if src == [] then WriteAt(b.dest, 0, e.newDb) else b.dest;
      var nSrcPage := if src == [] then 1 else NumPages(g, src);
      b.(rc := Done, dest := Committed(g, WriteAt(d, 0, e.head), src, nSrcPage))
  }

  /** One call of sqlite3_backup_step. */
  function Step(g: Config, b: Backup, src: seq<Byte>, nPage: int, e: Env): Backup
    requires IsAligned(g) && IsSource(g, src) && IsEnv(g, e) && b.iNext > 0
  {
    if IsFatal(b.rc) then b
    else
      var (rc, locked) := Prepare(g, b, e);
      if rc != Ok then b.(rc := rc, bDestLocked := locked)
      else
        var q := CopyPages(g, b.(rc := Ok, bDestLocked := true), src, nPage, e.failAt, 0);
        if q.rc != Ok then q
        else
          var n := NumPages(g, src);
          var r := q.(nPagecount := n, nRemaining := n + 1 - q.iNext);
          if q.iNext > n then Finish(g, r, src, e) else r.(isAttached := true)
  }

  /** The source tells an attached backup that page p has new contents. */
  function Update(g: Config, b: Backup, p: nat, data: seq<Byte>, fails: bool): Backup
    requires IsAligned(g) && |data| == g.pgszSrc && p > 0
  {
    if IsFatal(b.rc) || p >= b.iNext then b
    else if fails then b.(rc := Fatal)
    else b.(dest := OnePage(g, b.dest, p, data, []))
  }

  function Restart(b: Backup): Backup {
    b.(iNext := 1)
  }

  function Start(dest: seq<Byte>): Backup {
    Backup(1, Ok, false, false, 0, 0, dest)
  }

  // ---- Runs: steps of the backup interleaved with changes of the source ----

  datatype Event =
    | BackupStep(nPage: int, env: Env)
    | WritePage(p: nat, data: seq<Byte>, fails: bool)  // an existing page, or the next new one
    | Truncate(n: nat)                                 // the source shrinks to n pages
    | External(src: seq<Byte>)                         // another process has changed the source

  datatype State = State(src: seq<Byte>, b: Backup)

  /** A page that may be written: not the unused one, and at most one past the end, the unused one not counted. */
  predicate CanWrite(g: Config, src: seq<Byte>, p: nat)
    requires IsAligned(g) && IsSource(g, src)
  {
    var n, u := NumPages(g, src), PendingPage(g, g.pgszSrc);
    1 <= p && p != u && (p <= n + 1 || (p == n + 2 && n + 1 == u))
  }

  predicate CanHappen(g: Config, s: State, ev: Event)
    requires IsAligned(g) && IsSource(g, s.src)
  {
    match ev
    case BackupStep(nPage, env) => IsEnv(g, env)
    case WritePage(p, data, _) => CanWrite(g, s.src, p) && |data| == g.pgszSrc
    case Truncate(n) => n <= NumPages(g, s.src) && n != PendingPage(g, g.pgszSrc)
    case External(src) => IsSource(g, src)
  }

  function Next(g: Config, s: State, ev: Event): State
    requires IsAligned(g) && IsSource(g, s.src) && s.b.iNext > 0 && CanHappen(g, s, ev)
  {
    match ev
    case BackupStep(nPage, env) => s.(b := Step(g, s.b, s.src, nPage, env))
    case WritePage(p, data, fails) =>
      State(WriteAt(s.src, Offset(p, g.pgszSrc), data),
            if s.b.isAttached then Update(g, s.b, p, data, fails) else s.b)
    case Truncate(n) => s.(src := s.src[..Min(n * g.pgszSrc, |s.src|)])
    case External(src) => State(src, if s.b.isAttached then Restart(s.b) else s.b)
  }
}
