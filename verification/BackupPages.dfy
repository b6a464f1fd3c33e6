/** What copying one page does to the destination, byte by byte, for every pair of page sizes. */
module BackupPages {
  import opened Backup
  import opened Division

  // ---- Arithmetic of aligned offsets ----

  lemma MulStep(a: int, d: int)
    ensures (a + 1) * d == a * d + d
  {
  }

  lemma Divides65536(n: nat, d: nat)
    requires n % 65536 == 0 && IsPageSize(d)
    ensures n % d == 0
  {
    var k, m := n / 65536, 65536 / d;
    assert 65536 == m * d;
    assert n == (k * m) * d + 0 by { assert n == k * (m * d); }
    DivModUnique(n, d, k * m, 0);
  }

  /** Powers of two are aligned. */
  lemma PageSizesAligned(g: Config)
    requires IsConfig(g)
    ensures IsAligned(g)
  {
    Divides65536(g.pendingByte, g.pgszSrc);
    Divides65536(g.pendingByte, g.pgszDest);
  }

  lemma Multiple(x: nat, d: nat)
    requires d > 0 && x % d == 0
    ensures x == (x / d) * d
  {
  }

  /** A source page lies within one destination page of at least its size. */
  lemma SmallPage(s: nat, d: nat, q: nat)
    requires 0 < s <= d && d % s == 0
    ensures (q * s) % d + s <= d
  {
    var m := d / s;
    var a, c := q / m, q % m;
    Multiple(d, s);
    assert q == a * m + c;
    assert q * s == a * d + c * s by { assert a * (m * s) + c * s == (a * m + c) * s; }
    assert (m - c) * s == d - c * s;
    MulGe(m - c, s);
    DivModUnique(q * s, d, a, c * s);
  }

  /** A page of size s, a multiple of d, starts where some page of size d does. */
  lemma LargePage(s: nat, d: nat, q: nat)
    requires 0 < d <= s && s % d == 0
    ensures (q * s) % d == 0
  {
    var k := s / d;
    Multiple(s, d);
    assert q * s == (q * k) * d + 0 by { assert q * (k * d) == (q * k) * d; }
    DivModUnique(q * s, d, q * k, 0);
  }

  /** A page starts at the product of its number, counted from 0, and the page size. */
  lemma OffsetIs(p: nat, d: nat, off: nat)
    requires p > 0 && d > 0 && off == (p - 1) * d
    ensures Offset(p, d) == off
  {
    TimesIsProduct(p - 1, d);
  }

  /** Every offset lies in the page that starts at its quotient. */
  lemma OffsetIn(off: nat, d: nat)
    requires d > 0
    ensures Offset(off / d + 1, d) + off % d == off
  {
    TimesIsProduct(off / d, d);
  }

  lemma OffsetMultiple(p: nat, d: nat)
    requires p > 0 && d > 0
    ensures Offset(p, d) % d == 0 && Offset(p, d) / d == p - 1
  {
    TimesIsProduct(p - 1, d);
    DivModUnique((p - 1) * d, d, p - 1, 0);
  }

  lemma OffsetMono(p: nat, q: nat, pgsz: nat)
    requires 0 < p <= q
    ensures Offset(p, pgsz) <= Offset(q, pgsz)
    ensures p < q ==> Offset(p, pgsz) + pgsz <= Offset(q, pgsz)
  {
    TimesMono(p - 1, q - 1, pgsz);
  }

  /** The unused page is the one that starts at the unused byte. */
  lemma PendingStart(g: Config, d: nat)
    requires d > 0 && g.pendingByte % d == 0
    ensures PendingPage(g, d) == g.pendingByte / d + 1 && Offset(PendingPage(g, d), d) == g.pendingByte
  {
    QuotientIsDivision(g.pendingByte, d);
    Multiple(g.pendingByte, d);
    OffsetIs(g.pendingByte / d + 1, d, g.pendingByte);
  }

  /** Any other source page lies before or behind it. */
  lemma NotInPending(g: Config, p: nat)
    requires IsAligned(g) && p > 0 && p != PendingPage(g, g.pgszSrc)
    ensures var base := Offset(p, g.pgszSrc); base >= g.pendingByte + g.pgszSrc || base + g.pgszSrc <= g.pendingByte
  {
    PendingStart(g, g.pgszSrc);
    var u := PendingPage(g, g.pgszSrc);
    if p < u { OffsetMono(p, u, g.pgszSrc); } else { OffsetMono(u, p, g.pgszSrc); }
  }

  // ---- One page ----

  /** How a source page at base lies in the destination's pages: within one, or covering several. */
  predicate Fits(g: Config, base: nat)
    requires g.pgszDest > 0
  {
    if g.pgszSrc <= g.pgszDest then base % g.pgszDest + g.pgszSrc <= g.pgszDest
    else base % g.pgszDest == 0
  }

  lemma PageFits(g: Config, p: nat)
    requires IsAligned(g) && p > 0
    ensures Fits(g, Offset(p, g.pgszSrc))
  {
    var s, d := g.pgszSrc, g.pgszDest;
    TimesIsProduct(p - 1, s);
    if s <= d {
      SmallPage(s, d, p - 1);
    } else {
      LargePage(s, d, p - 1);
    }
  }

  /** Two offsets of one destination page are both in the unused page or both outside. */
  lemma SamePage(g: Config, off: nat, n: nat)
    requires g.pgszDest > 0 && g.pendingByte % g.pgszDest == 0 && n > 0 && off % g.pgszDest + n <= g.pgszDest
    ensures InDestPending(g, off) <==> InDestPending(g, off + n - 1)
    ensures InDestPending(g, off) <==> off / g.pgszDest + 1 == PendingPage(g, g.pgszDest)
  {
    var d, q, u := g.pgszDest, off / g.pgszDest + 1, PendingPage(g, g.pgszDest);
    PendingStart(g, d);
    OffsetIn(off, d);
    if q < u { OffsetMono(q, u, d); } else { OffsetMono(u, q, d); }
  }

  /** r is dest with the page at base replaced by data, but for the unused page and the header. */
  ghost predicate Copied(g: Config, dest: seq<Byte>, r: seq<Byte>, base: nat, data: seq<Byte>)
    requires |data| == g.pgszSrc
  {
    && |r| >= |dest|
    && (forall off :: base <= off < base + g.pgszSrc && !InDestPending(g, off) ==>
          off < |r| && (off >= 100 ==> r[off] == data[off - base]))
    && (forall off :: 0 <= off < |dest| && !(base <= off < base + g.pgszSrc) && off >= 100 ==> r[off] == dest[off])
  }

  /** The last byte of a source page is in the unused destination page only if all its bytes are. */
  lemma LastInPending(g: Config, p: nat)
    requires IsAligned(g) && p > 0 && p != PendingPage(g, g.pgszSrc)
    ensures var base := Offset(p, g.pgszSrc);
            InDestPending(g, base + g.pgszSrc - 1) ==>
                g.pendingByte <= base && base + g.pgszSrc <= g.pendingByte + g.pgszDest
  {
    var base := Offset(p, g.pgszSrc);
    NotInPending(g, p);
    PageFits(g, p);
    if g.pgszSrc <= g.pgszDest { SamePage(g, base, g.pgszSrc); }
  }

  /** Copying page p puts its bytes at their own offsets and leaves the rest of the destination alone. */
  lemma OnePageOk(g: Config, dest: seq<Byte>, p: nat, data: seq<Byte>, header: seq<Byte>)
    requires IsAligned(g) && |data| == g.pgszSrc && |header| <= 4 && p > 0 && p != PendingPage(g, g.pgszSrc)
    ensures Copied(g, dest, OnePage(g, dest, p, data, header), Offset(p, g.pgszSrc), data)
  {
    LastInPending(g, p);
  }
}
