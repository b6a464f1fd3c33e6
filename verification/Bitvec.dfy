/** A set of integers from 1 up to a fixed size, held as a bitmap, a hash table or a radix tree of such sets. */
module Bitvec {
  import opened Basics
  import opened BitvecSlots
  import opened Division

  /** How many elements of each kind fit into one object. */
  datatype Config = Config(nelem: nat, nint: nat, nptr: nat) {
    const nbit: nat := nelem * 8
    const mxhash: nat := nint / 2
  }

  predicate IsConfig(c: Config) {
    c.nelem >= 1 && 2 <= c.nint < 0x1_0000_0000 && c.nptr >= 2
  }

  /** The layout of an object of sz bytes on a machine with pointers of ptr bytes. */
  function Layout(sz: nat, ptr: nat): Config
    requires sz >= 12 && ptr > 0
  {
    var usize := (sz - 12) / ptr * ptr;
    Config(usize, usize / 4, usize / ptr)
  }

  /**
   Every layout with room for two pointers is usable: the elements fill what three 32-bit numbers leave of the object,
   up to the last whole pointer.
   */
  lemma LayoutIsConfig(sz: nat, ptr: nat)
    requires (ptr == 4 || ptr == 8) && 12 + 2 * ptr <= sz < 0x1_0000_0000
    ensures IsConfig(Layout(sz, ptr))
    ensures var c := Layout(sz, ptr);
            && c.nelem <= sz - 12 < c.nelem + ptr && c.nptr * ptr == c.nelem
            && c.nint * 4 == c.nelem && c.nbit == 8 * c.nelem && 2 * c.mxhash <= c.nint < 2 * c.mxhash + 2
  {
    var q := (sz - 12) / ptr;
    assert q * ptr / ptr == q;
  }

  function Ceil(n: nat, d: nat): nat
    requires d > 0
  {
    n / d + if n % d != 0 then 1 else 0
  }

  /** The number of elements that each child of a tree for 1..iSize handles. */
  function Divisor(c: Config, iSize: nat): (d: nat)
    requires IsConfig(c)
  {
    var d := Ceil(iSize, c.nptr);
    if d < c.nbit then c.nbit else d
  }

  function Bin(i: nat, d: nat): nat
    requires d > 0
  {
    i / d
  }

  function InBin(i: nat, d: nat): nat
    requires d > 0
  {
    i % d
  }

  lemma CeilLeast(n: nat, d: nat)
    requires d > 0 && n > 0
    ensures (Ceil(n, d) - 1) * d < n <= Ceil(n, d) * d
  {
    var q, r := n / d, n % d;
    assert n == q * d + r && 0 <= r < d;
    if r == 0 { LessOne(q, d); } else { LessOne(q + 1, d); }
  }

  lemma LessOne(q: nat, d: nat)
    ensures (q - 1) * d == q * d - d
  {
  }

  lemma Twice(q: nat, d: nat)
    requires d >= 2
    ensures q * d >= 2 * q
  {
    assert q * d == 2 * q + q * (d - 2);
  }

  lemma CeilOk(n: nat, d: nat)
    requires d >= 2 && n >= 2
    ensures Ceil(n, d) < n <= Ceil(n, d) * d && (Ceil(n, d) - 1) * d < n
  {
    CeilLeast(n, d);
    Twice(n / d, d);
    SmallQuotient(n, n / d, n % d, n / d * d);
  }

  lemma SmallQuotient(n: nat, q: nat, r: nat, qd: nat)
    requires n >= 2 && n == qd + r && qd >= 2 * q
    ensures q + (if r != 0 then 1 else 0) < n
  {
  }

  /** Children are strictly smaller than their parent, and between them they have room for all its elements. */
  lemma DivisorOk(c: Config, iSize: nat)
    requires IsConfig(c) && iSize > c.nbit
    ensures c.nbit <= Divisor(c, iSize) < iSize <= Divisor(c, iSize) * c.nptr
    ensures Divisor(c, iSize) == c.nbit || (Divisor(c, iSize) - 1) * c.nptr < iSize
  {
    CeilOk(iSize, c.nptr);
    var d := Divisor(c, iSize);
    assert d * c.nptr >= Ceil(iSize, c.nptr) * c.nptr by {
      assert d * c.nptr == Ceil(iSize, c.nptr) * c.nptr + (d - Ceil(iSize, c.nptr)) * c.nptr;
    }
  }

  /** Every element falls into a child that exists. */
  lemma BinOk(i: nat, d: nat, n: nat, iSize: nat)
    requires 0 < d && i < iSize <= d * n
    ensures Bin(i, d) < n && InBin(i, d) < d
  {
    var q := i / d;
    assert i == q * d + i % d;
    if q >= n { MulMono(d, n, q); }
  }

  lemma BinInjective(i: nat, j: nat, d: nat)
    requires d > 0
    ensures i == j <==> Bin(i, d) == Bin(j, d) && InBin(i, d) == InBin(j, d)
  {
    assert i == i / d * d + i % d;
    assert j == j / d * d + j % d;
  }

  predicate BitmapHolds(bytes: seq<bv8>, n: nat, members: set<nat>)
    requires n <= |bytes| * 8
  {
    forall i {:trigger Bit(bytes, i)} :: 0 <= i < n ==> (Bit(bytes, i) <==> i + 1 in members)
  }

  lemma BitmapSet(bytes: seq<bv8>, n: nat, members: set<nat>, k: nat)
    requires k < n <= |bytes| * 8 && BitmapHolds(bytes, n, members)
    ensures BitmapHolds(bytes[k / 8 := bytes[k / 8] | Mask(k % 8)], n, members + {k + 1})
  {
    forall i | 0 <= i < n { SetBitOk(bytes, k, i); }
  }

  lemma BitmapCleared(bytes: seq<bv8>, n: nat, members: set<nat>, k: nat)
    requires k < n <= |bytes| * 8 && BitmapHolds(bytes, n, members)
    ensures BitmapHolds(bytes[k / 8 := bytes[k / 8] & !Mask(k % 8)], n, members - {k + 1})
  {
    forall i | 0 <= i < n { ClearBitOk(bytes, k, i); }
  }

  ghost predicate TableHolds(s: seq<u32>, nSet: nat, members: set<nat>) {
    IsTable(s) && Used(s) == nSet < |s| && forall v: nat :: Holds(s, v) <==> v in members
  }

  ghost predicate Apart(a: Bitvec?, b: Bitvec?)
    reads a, b
  {
    a != null && b != null ==> a.Repr !! b.Repr
  }

  class Bitvec {
    const c: Config
    const iSize: u32
    var nSet: u32
    var iDivisor: u32
    const aBitmap: array<bv8>
    const aHash: array<u32>
    const apSub: array<Bitvec?>

    /** The members of the set, and all the objects that represent it. */
    ghost var Members: set<nat>
    ghost var Repr: set<object>

    ghost predicate Valid()
      reads this, Repr
      decreases iSize, 2
    {
      && Shape()
      && (iDivisor == 0 ==> Flat())
      && (iDivisor > 0 ==> Children() && Delegates())
    }

    ghost predicate Shape()
      reads this
    {
      && this in Repr && aBitmap in Repr && aHash in Repr && apSub in Repr
      && IsConfig(c) && aBitmap.Length == c.nelem && aHash.Length == c.nint && apSub.Length == c.nptr
      && (forall x :: x in Members ==> 1 <= x <= iSize)
      && (iDivisor > 0 ==> c.nbit < iSize && c.nbit <= iDivisor < iSize <= iDivisor * c.nptr)
    }

    /** A bitmap or a hash table holds the members. */
    ghost predicate Flat()
      requires Shape()
      reads this, aBitmap, aHash
    {
      if iSize <= c.nbit then BitmapHolds(aBitmap[..], iSize, Members) else TableHolds(aHash[..], nSet, Members)
    }

    /** The children are valid and share no object. */
    ghost predicate Children()
      requires Shape()
      reads this, Repr
      decreases iSize, 1
    {
      && (forall k {:trigger apSub[k]} :: 0 <= k < apSub.Length ==> IsChild(apSub[k]))
      && (forall k, l {:trigger apSub[k], apSub[l]} :: 0 <= k < apSub.Length && 0 <= l < apSub.Length && k != l ==>
          Apart(apSub[k], apSub[l]))
    }

    ghost predicate IsChild(s: Bitvec?)
      requires Shape()
      reads this, Repr
      decreases iSize, 0
    {
      s != null ==>
        && s in Repr && s.Repr <= Repr && this !in s.Repr && aBitmap !in s.Repr && aHash !in s.Repr && apSub !in s.Repr
        && s.c == c && s.iSize == iDivisor < iSize && s.Valid()
    }

    /** An element is a member when it is one of the child that it falls into. */
    ghost predicate Delegates()
      requires Shape() && iDivisor > 0
      reads this, Repr
    {
      forall x {:trigger x in Members} {:trigger InChild(x)} :: 1 <= x <= iSize ==> (x in Members <==> InChild(x))
    }

    ghost predicate InChild(x: nat)
      requires Shape() && iDivisor > 0 && 1 <= x
      reads this, Repr
    {
      var bin := Bin(x - 1, iDivisor);
      bin < apSub.Length && apSub[bin] != null && apSub[bin] in Repr && InBin(x - 1, iDivisor) + 1 in apSub[bin].Members
    }

    constructor (c: Config, iSize: u32)
      requires IsConfig(c)
      ensures Valid() && fresh(Repr) && this.c == c && this.iSize == iSize
      ensures Members == {} && iDivisor == 0 && nSet == 0
      ensures forall k :: 0 <= k < aHash.Length ==> aHash[k] == 0
    {
      this.c, this.iSize := c, iSize;
      nSet, iDivisor := 0, 0;
      aBitmap := new bv8[c.nelem](_ => 0);
      aHash := new u32[c.nint](_ => 0);
      apSub := new Bitvec?[c.nptr](_ => null);
      Members := {};
      new;
      Repr := {this, aBitmap, aHash, apSub};
      Empty(aHash[..]);
    }

    /** Any number may be asked for; 0 wraps around to the largest one. */
    method TestNotNull(i: u32) returns (r: bool)
      requires Valid()
      ensures r <==> i in Members
    {
      var k: u32 := if i == 0 then 0xFFFF_FFFF else i - 1;
      if k >= iSize { return false; }
      var p: Bitvec := this;
      while p.iDivisor != 0
        invariant p.Valid() && k < p.iSize
        invariant k + 1 in p.Members <==> i in Members
        decreases p.iSize
      {
        var bin := k / p.iDivisor;
        BinOk(k, p.iDivisor, p.c.nptr, p.iSize);
        assert p.IsChild(p.apSub[bin]);
        k := k % p.iDivisor;
        var sub := p.apSub[bin];
        if sub == null { return false; }
        p := sub;
      }
      if p.iSize <= p.c.nbit {
        assert Bit(p.aBitmap[..], k) <==> k + 1 in p.Members;
        return p.aBitmap[k / 8] & Mask(k % 8) != 0;
      } else {
        var found, h, d := p.Search(k + 1);
        return found;
      }
    }

    /** Linear probing: whether i is in the hash table, and where the search for it ends. */
    method Search(i: u32) returns (found: bool, h: nat, ghost d: nat)
      requires Shape() && i >= 1 && TableHolds(aHash[..], nSet, Members)
      ensures found <==> i in Members
      ensures d < c.nint && h == Step(Home(i, c.nint), d, c.nint)
      ensures !found ==> aHash[h] == 0 && Probed(aHash[..], i, d)
      ensures aHash[Home(i, c.nint)] == 0 ==> !found && h == Home(i, c.nint)
    {
      h, d := (i - 1) % c.nint, 0;
      while aHash[h] != 0
        invariant d < c.nint && h == Step(Home(i, c.nint), d, c.nint)
        invariant aHash[Home(i, c.nint)] == 0 ==> h == Home(i, c.nint)
        invariant Probed(aHash[..], i, d)
        decreases c.nint - d
      {
        if aHash[h] == i {
          assert Holds(aHash[..], i);
          return true, h, d;
        }
        NextStep(Home(i, c.nint), d, h, c.nint);
        h := (h + 1) % c.nint;
        d := d + 1;
        SearchEnds(aHash[..], i, d);
      }
      Absent(aHash[..], i, d);
      found := false;
    }

    /** Adds i, in the representation that the set has or, when its hash table is too full, in children. */
    method Set(i: u32)
      requires Valid() && 1 <= i <= iSize
      modifies Repr
      ensures Valid() && fresh(Repr - old(Repr))
      ensures Members == old(Members) + {i as nat}
      ensures old(iDivisor) > 0 ==> iDivisor == old(iDivisor)
      ensures old(IsTableOnly()) ==> Entered(i)
      decreases iSize, if iDivisor > 0 then 1 else 2, 1
    {
      var k := i - 1;
      if iSize > c.nbit && iDivisor != 0 {
        SetInChild(k);
      } else if iSize <= c.nbit {
        SetBit(k);
      } else {
        SetInTable(i);
      }
    }

    method SetInChild(k: u32)
      requires Valid() && iDivisor > 0 && k < iSize
      modifies Repr
      ensures Valid() && fresh(Repr - old(Repr)) && iDivisor == old(iDivisor)
      ensures Members == old(Members) + {k as nat + 1}
      decreases iSize, 1, 0
    {
      var bin := k / iDivisor;
      BinOk(k, iDivisor, c.nptr, iSize);
      if apSub[bin] == null { Adopt(bin); }
      Descend(k, bin);
    }

    method Descend(k: u32, bin: nat)
      requires Valid() && iDivisor > 0 && k < iSize && bin == Bin(k, iDivisor) < c.nptr && apSub[bin] != null
      modifies Repr
      ensures Valid() && fresh(Repr - old(Repr)) && iDivisor == old(iDivisor)
      ensures Members == old(Members) + {k as nat + 1}
      decreases iSize, 0, 1
    {
      SetIn(bin, InBin(k, iDivisor) + 1);
      Members := Members + {k as nat + 1};
      forall x | 1 <= x <= iSize
        ensures x in Members <==> InChild(x)
      {
        assert old(x in Members <==> InChild(x));
        BinInjective(x - 1, k, iDivisor);
      }
    }

    /** Adds i to one child and leaves the others as they are. */
    method SetIn(bin: nat, i: u32)
      requires Valid() && iDivisor > 0 && bin < c.nptr && apSub[bin] != null && 1 <= i <= iDivisor
      modifies Repr
      ensures Shape() && Children() && fresh(Repr - old(Repr))
      ensures iDivisor == old(iDivisor) && Members == old(Members) && apSub[..] == old(apSub[..])
      ensures forall l :: 0 <= l < apSub.Length && old(apSub[l]) != null ==>
                apSub[l] == old(apSub[l])
                && apSub[l].Members == old(apSub[l].Members) + if l == bin then {i as nat} else {}
      decreases iSize, 0, 0
    {
      var s := apSub[bin];
      assert IsChild(s);
      s.Set(i);
      Repr := Repr + s.Repr;
      forall l | 0 <= l < apSub.Length && l != bin && apSub[l] != null
        ensures IsChild(apSub[l]) && Kept(apSub[l])
      {
        assert old(IsChild(apSub[l]) && Apart(apSub[l], s));
        apSub[l].StillValid();
      }
    }

    twostate predicate Kept(s: Bitvec)
      reads s
    {
      s.Repr == old(s.Repr) && s.Members == old(s.Members)
    }

    twostate lemma StillValid()
      requires old(Valid()) && unchanged(old(Repr))
      ensures Valid() && Repr == old(Repr) && Members == old(Members)
    {
    }

    /** Makes an empty child. */
    method Adopt(bin: nat)
      requires Valid() && iDivisor > 0 && bin < c.nptr && apSub[bin] == null
      modifies this`Repr, apSub
      ensures Valid() && fresh(Repr - old(Repr)) && apSub[bin] != null && fresh(apSub[bin])
    {
      var s := new Bitvec(c, iDivisor);
      apSub[bin] := s;
      Repr := Repr + s.Repr;
      forall l | 0 <= l < apSub.Length && l != bin && apSub[l] != null
        ensures IsChild(apSub[l]) && Kept(apSub[l])
      {
        assert old(IsChild(apSub[l]));
        apSub[l].StillValid();
      }
      forall x | 1 <= x <= iSize
        ensures x in Members <==> InChild(x)
      {
        assert old(x in Members <==> InChild(x));
      }
    }

    method SetBit(k: u32)
      requires Valid() && iSize <= c.nbit && k < iSize
      modifies this`Members, aBitmap
      ensures Valid() && Members == old(Members) + {k as nat + 1}
    {
      ghost var was := aBitmap[..];
      aBitmap[k / 8] := aBitmap[k / 8] | Mask(k % 8);
      BitmapSet(was, iSize, Members, k);
      Members := Members + {k as nat + 1};
      assert aBitmap[..] == was[k / 8 := was[k / 8] | Mask(k % 8)];
    }

    /** The hash table: a value whose own slot is free may fill it up to one free slot, others only to the half. */
    method SetInTable(i: u32)
      requires Valid() && IsTableOnly() && 1 <= i <= iSize
      modifies Repr
      ensures Valid() && fresh(Repr - old(Repr)) && Members == old(Members) + {i as nat}
      ensures Entered(i)
      decreases iSize, 2, 0
    {
      var collision := aHash[(i - 1) % c.nint] != 0;
      var found, h, d := Search(i);
      if found { return; }
      if (collision || nSet >= c.nint - 1) && nSet >= c.mxhash {
        Split(i);
      } else {
        Fill(i, h, d);
      }
    }

    method Fill(i: u32, h: nat, ghost d: nat)
      requires Valid() && IsTableOnly() && 1 <= i <= iSize && nSet + 1 < c.nint
      requires d < c.nint && h == Step(Home(i, c.nint), d, c.nint) && aHash[h] == 0 && Probed(aHash[..], i, d)
      modifies this`nSet, this`Members, aHash
      ensures Valid() && Members == old(Members) + {i as nat} && i !in old(Members)
      ensures nSet == old(nSet) + 1 && aHash[..] == old(aHash[..])[h := i]
    {
      Absent(aHash[..], i, d);
      Add(aHash[..], i, d);
      nSet := nSet + 1;
      aHash[h] := i;
      Members := Members + {i as nat};
      assert aHash[..] == old(aHash[..])[h := i];
    }

    /** The set is a hash table that has not been split. */
    ghost predicate IsTableOnly()
      reads this
    {
      iSize > c.nbit && iDivisor == 0
    }

    /** Adding i splits the table: it is new, the table is half full, and its own slot is taken or only one is free. */
    ghost predicate MustSplit(i: u32)
      requires Shape() && i >= 1
      reads this, aHash
    {
      i !in Members && 2 * nSet + 1 >= c.nint && (aHash[Home(i, c.nint)] != 0 || nSet >= c.nint - 1)
    }

    /** What adding i has done to a table: it is split when it must be; otherwise it has one value more, if i is new. */
    twostate predicate Entered(i: u32)
      requires old(Shape()) && i >= 1
      reads this, aHash
    {
      && (iDivisor > 0 <==> old(MustSplit(i)))
      && (iDivisor == 0 ==> nSet == old(nSet) + if i as nat in old(Members) then 0 else 1)
      && (iDivisor == 0 && old(aHash[Home(i, c.nint)]) == 0 ==> aHash[..] == old(aHash[..])[Home(i, c.nint) := i])
    }

    /** Turns the full hash table into children, and adds i and all its values to them. */
    method Split(i: u32)
      requires Valid() && iSize > c.nbit && iDivisor == 0 && 1 <= i <= iSize
      modifies Repr
      ensures Valid() && fresh(Repr - old(Repr)) && Members == old(Members) + {i as nat} && iDivisor > 0
      decreases iSize, 1, 3
    {
      var aiValues := aHash[..];
      ghost var was := Members;
      assert forall v: nat :: Holds(aiValues, v) <==> v in was;
      ToChildren();
      Set(i);
      var j := 0;
      while j < c.nint
        invariant 0 <= j <= c.nint
        invariant Valid() && fresh(Repr - old(Repr)) && iDivisor > 0
        invariant Members == {i as nat} + ValuesIn(aiValues[..j])
      {
        Move(aiValues, j, was);
        ValuesStep(aiValues, j);
        j := j + 1;
      }
      AllMoved(aiValues, was);
    }

    /** Adds what was in slot j of the hash table. */
    method Move(aiValues: seq<u32>, j: nat, ghost was: set<nat>)
      requires Valid() && iDivisor > 0 && j < |aiValues|
      requires forall v: nat :: Holds(aiValues, v) <==> v in was
      requires forall v :: v in was ==> v <= iSize
      modifies Repr
      ensures Valid() && fresh(Repr - old(Repr)) && iDivisor == old(iDivisor)
      ensures Members == old(Members) + if aiValues[j] == 0 then {} else {aiValues[j] as nat}
      decreases iSize, 1, 2
    {
      if aiValues[j] != 0 {
        assert Holds(aiValues, aiValues[j]);
        Set(aiValues[j]);
      }
    }

    method ToChildren()
      requires Valid() && iSize > c.nbit && iDivisor == 0
      modifies this`iDivisor, this`Members, apSub
      ensures Valid() && iDivisor > 0 && Members == {}
      ensures iDivisor == c.nbit || (iDivisor - 1) * c.nptr < iSize
    {
      forall k | 0 <= k < apSub.Length { apSub[k] := null; }
      iDivisor := iSize / c.nptr;
      if iSize % c.nptr != 0 { iDivisor := iDivisor + 1; }
      if iDivisor < c.nbit { iDivisor := c.nbit; }
      Members := {};
      DivisorOk(c, iSize);
      assert iDivisor == Divisor(c, iSize);
    }

    /** Removes i. A hash table is built anew from its other values. */
    method Clear(i: u32)
      requires Valid() && 1 <= i <= iSize
      modifies Repr
      ensures Valid() && Repr == old(Repr) && Members == old(Members) - {i as nat}
      ensures iDivisor == old(iDivisor)
      decreases iSize, 1
    {
      var k := i - 1;
      if iDivisor != 0 {
        var bin := k / iDivisor;
        BinOk(k, iDivisor, c.nptr, iSize);
        ClearInChild(k, bin);
      } else if iSize <= c.nbit {
        ClearBit(k);
      } else {
        ClearInTable(i);
      }
    }

    method ClearInChild(k: u32, bin: nat)
      requires Valid() && iDivisor > 0 && k < iSize && bin == Bin(k, iDivisor) < c.nptr
      modifies Repr
      ensures Valid() && Repr == old(Repr) && iDivisor == old(iDivisor)
      ensures Members == old(Members) - {k as nat + 1}
      decreases iSize, 0
    {
      var s := apSub[bin];
      assert IsChild(s);
      if s == null {
        assert !InChild(k + 1);
        return;
      }
      s.Clear(InBin(k, iDivisor) + 1);
      Members := Members - {k as nat + 1};
      forall l | 0 <= l < apSub.Length && l != bin && apSub[l] != null
        ensures IsChild(apSub[l]) && Kept(apSub[l])
      {
        assert old(IsChild(apSub[l]) && Apart(apSub[l], s));
        apSub[l].StillValid();
      }
      forall x | 1 <= x <= iSize
        ensures x in Members <==> InChild(x)
      {
        assert old(x in Members <==> InChild(x));
        BinInjective(x - 1, k, iDivisor);
      }
    }

    method ClearBit(k: u32)
      requires Valid() && iSize <= c.nbit && k < iSize
      modifies this`Members, aBitmap
      ensures Valid() && Members == old(Members) - {k as nat + 1}
    {
      ghost var was := aBitmap[..];
      aBitmap[k / 8] := aBitmap[k / 8] & !Mask(k % 8);
      BitmapCleared(was, iSize, Members, k);
      Members := Members - {k as nat + 1};
      assert aBitmap[..] == was[k / 8 := was[k / 8] & !Mask(k % 8)];
    }

    method ClearInTable(i: u32)
      requires Valid() && iSize > c.nbit && iDivisor == 0 && 1 <= i <= iSize
      modifies this`nSet, this`Members, aHash
      ensures Valid() && Members == old(Members) - {i as nat}
    {
      var aiValues := aHash[..];
      ghost var was := Members;
      forall k | 0 <= k < aHash.Length { aHash[k] := 0; }
      nSet := 0;
      Members := {};
      Empty(aHash[..]);
      var j := 0;
      while j < c.nint
        invariant 0 <= j <= c.nint
        invariant Valid() && nSet <= Used(aiValues[..j])
        invariant Members == ValuesIn(aiValues[..j]) - {i as nat}
      {
        PutBack(aiValues, j, i, was);
        j := j + 1;
      }
      AllMoved(aiValues, was);
    }

    /** Puts the value of slot j of the old table into the new one, unless it is i. */
    method PutBack(aiValues: seq<u32>, j: nat, i: u32, ghost was: set<nat>)
      requires Valid() && iSize > c.nbit && iDivisor == 0 && j < |aiValues| == c.nint
      requires TableHolds(aiValues, Used(aiValues), was) && forall v :: v in was ==> v <= iSize
      requires nSet <= Used(aiValues[..j]) && Members == ValuesIn(aiValues[..j]) - {i as nat}
      modifies this`nSet, this`Members, aHash
      ensures Valid() && nSet <= Used(aiValues[..j + 1]) && Members == ValuesIn(aiValues[..j + 1]) - {i as nat}
    {
      ValuesStep(aiValues, j);
      UsedStep(aiValues, j);
      if aiValues[j] != 0 && aiValues[j] != i {
        NotBefore(aiValues, j);
        assert Holds(aiValues, aiValues[j]);
        Reinsert(aiValues[j]);
      }
    }

    method Reinsert(v: u32)
      requires Valid() && iSize > c.nbit && iDivisor == 0 && 1 <= v <= iSize && v !in Members && nSet + 1 < c.nint
      modifies this`nSet, this`Members, aHash
      ensures Valid() && nSet == old(nSet) + 1 && Members == old(Members) + {v as nat}
    {
      var h, d := FreeFor(v);
      Fill(v, h, d);
    }

    /** The slot for a value that is known to be absent. */
    method FreeFor(v: u32) returns (h: nat, ghost d: nat)
      requires Shape() && v >= 1 && TableHolds(aHash[..], nSet, Members) && v !in Members
      ensures d < c.nint && h == Step(Home(v, c.nint), d, c.nint)
      ensures aHash[h] == 0 && Probed(aHash[..], v, d)
    {
      h, d := (v - 1) % c.nint, 0;
      while aHash[h] != 0
        invariant d < c.nint && h == Step(Home(v, c.nint), d, c.nint)
        invariant Probed(aHash[..], v, d)
        decreases c.nint - d
      {
        assert aHash[h] == v ==> Holds(aHash[..], v);
        NextStep(Home(v, c.nint), d, h, c.nint);
        h := h + 1;
        if h >= c.nint { h := 0; }
        d := d + 1;
        SearchEnds(aHash[..], v, d);
      }
    }
  }

  // ---- Whole runs ----

  datatype Op = SetOp(i: u32) | ClearOp(i: u32)

  /** The last operation on x sets it. */
  predicate LastSets(ops: seq<Op>, x: u32) {
    exists k :: 0 <= k < |ops| && ops[k] == SetOp(x) && forall l :: k < l < |ops| ==> ops[l] != ClearOp(x)
  }

  /** Runs a program of Set and Clear on a new vector and asks it for x. */
  method RunProgram(c: Config, iSize: u32, ops: seq<Op>, x: u32) returns (r: bool)
    requires IsConfig(c) && forall op :: op in ops ==> 1 <= op.i <= iSize
    ensures r <==> LastSets(ops, x)
  {
    var p := new Bitvec(c, iSize);
    for n := 0 to |ops|
      invariant p.Valid() && fresh(p.Repr) && p.iSize == iSize
      invariant x as nat in p.Members <==> LastSets(ops[..n], x)
    {
      assert ops[n] in ops;
      LastSetsStep(ops, n, x);
      match ops[n]
      case SetOp(i) => p.Set(i);
      case ClearOp(i) => p.Clear(i);
    }
    assert ops[..|ops|] == ops;
    r := p.TestNotNull(x);
  }

  /**
   Sets the numbers from 1 up, so that each finds its own slot free: the hash table takes all but one of its slots,
   more than the half that it is meant for, and is still not split.
   */
  method FillTable(c: Config, iSize: u32) returns (p: Bitvec)
    requires IsConfig(c) && c.nint >= 3 && iSize > c.nbit && iSize >= c.nint - 1
    ensures fresh(p) && fresh(p.Repr) && p.Valid() && p.iSize == iSize && p.c == c
    ensures p.iDivisor == 0 && p.nSet == c.nint - 1 > c.mxhash
  {
    p := new Bitvec(c, iSize);
    var n := 0;
    while n < c.nint - 1
      invariant n <= c.nint - 1 && p.Valid() && fresh(p.Repr) && IsFilled(p, n)
    {
      SetNext(p, n);
      n := n + 1;
    }
  }

  /** The numbers 1..n are in their own slots, and the others are free. */
  ghost predicate IsFilled(p: Bitvec, n: nat)
    reads p, p.aHash
  {
    && p.IsTableOnly() && p.nSet == n < p.aHash.Length && (forall x :: x in p.Members ==> x <= n)
    && forall k :: n <= k < p.aHash.Length ==> p.aHash[k] == 0
  }

  lemma OwnSlot(v: nat, n: nat)
    requires 1 <= v <= n
    ensures Home(v, n) == v - 1
  {
  }

  method SetNext(p: Bitvec, n: nat)
    requires p.Valid() && IsFilled(p, n) && n + 1 < p.c.nint && n < p.iSize
    modifies p.Repr
    ensures p.Valid() && IsFilled(p, n + 1) && fresh(p.Repr - old(p.Repr))
  {
    OwnSlot(n + 1, p.c.nint);
    p.Set(n + 1);
  }

  lemma LastSetsStep(ops: seq<Op>, n: nat, x: u32)
    requires n < |ops|
    ensures LastSets(ops[..n + 1], x) <==> ops[n] == SetOp(x) || (LastSets(ops[..n], x) && ops[n] != ClearOp(x))
  {
    var s, t := ops[..n], ops[..n + 1];
    assert t == s + [ops[n]];
    if ops[n] == SetOp(x) {
      assert t[n] == SetOp(x);
    } else if LastSets(s, x) && ops[n] != ClearOp(x) {
      var k :| 0 <= k < n && s[k] == SetOp(x) && forall l :: k < l < n ==> s[l] != ClearOp(x);
      assert t[k] == SetOp(x);
    }
  }
}
