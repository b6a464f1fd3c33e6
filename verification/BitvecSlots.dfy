/** The two flat representations of a bit vector: bytes, and an open-addressed hash table with linear probing. */
module BitvecSlots {
  import opened Basics

  // ---- Bitmap ----

  function Mask(k: nat): bv8
    requires k < 8
  {
    1 << k
  }

  predicate Bit(bytes: seq<bv8>, i: nat)
    requires i / 8 < |bytes|
  {
    bytes[i / 8] & Mask(i % 8) != 0
  }

  lemma MaskOne(b: bv8, k: nat, j: nat)
    requires k < 8 && j < 8
    ensures (b | Mask(k)) & Mask(j) != 0 <==> j == k || b & Mask(j) != 0
    ensures (b & !Mask(k)) & Mask(j) != 0 <==> j != k && b & Mask(j) != 0
  {
  }

  /** Setting and clearing bit k changes no other bit. */
  lemma SetBitOk(bytes: seq<bv8>, k: nat, i: nat)
    requires k / 8 < |bytes| && i / 8 < |bytes|
    ensures Bit(bytes[k / 8 := bytes[k / 8] | Mask(k % 8)], i) <==> i == k || Bit(bytes, i)
  {
    if i / 8 == k / 8 { MaskOne(bytes[k / 8], k % 8, i % 8); }
  }

  lemma ClearBitOk(bytes: seq<bv8>, k: nat, i: nat)
    requires k / 8 < |bytes| && i / 8 < |bytes|
    ensures Bit(bytes[k / 8 := bytes[k / 8] & !Mask(k % 8)], i) <==> i != k && Bit(bytes, i)
  {
    if i / 8 == k / 8 { MaskOne(bytes[k / 8], k % 8, i % 8); }
  }

  // ---- Hash table: 0 marks a free slot ----

  /** The slot where the search for v starts. */
  function Home(v: nat, n: nat): nat
    requires v >= 1 && n > 0
  {
    (v - 1) % n
  }

  /** The slot d steps after h. */
  function Step(h: nat, d: nat, n: nat): nat
    requires h < n && d <= n
  {
    if h + d < n then h + d else h + d - n
  }

  lemma NextStep(h: nat, d: nat, k: nat, n: nat)
    requires h < n && d < n && k == Step(h, d, n)
    ensures (k + 1) % n == if d + 1 < n then Step(h, d + 1, n) else h
    ensures (k + 1) % n == if k + 1 >= n then 0 else k + 1
  {
  }

  /** The number of steps from slot h to slot k. */
  function Dist(h: nat, k: nat, n: nat): (d: nat)
    requires h < n && k < n
    ensures d < n && Step(h, d, n) == k
  {
    if h <= k then k - h else k - h + n
  }

  /** The first d slots of the search for v hold other values. */
  predicate Probed(s: seq<u32>, v: u32, d: nat)
    requires v >= 1 && 0 < |s| && d <= |s|
  {
    forall e {:trigger Step(Home(v, |s|), e, |s|)} :: 0 <= e < d ==>
        s[Step(Home(v, |s|), e, |s|)] != 0 && s[Step(Home(v, |s|), e, |s|)] != v
  }

  /** The search for the value in slot k gets there. */
  predicate Chained(s: seq<u32>, k: nat)
    requires k < |s|
  {
    s[k] != 0 ==> Probed(s, s[k], Dist(Home(s[k], |s|), k, |s|))
  }

  predicate IsTable(s: seq<u32>) {
    forall k {:trigger Chained(s, k)} :: 0 <= k < |s| ==> Chained(s, k)
  }

  predicate Holds(s: seq<u32>, v: nat) {
    exists k :: 0 <= k < |s| && s[k] == v != 0
  }

  function Used(s: seq<u32>): (n: nat)
    ensures n <= |s|
  {
    if s == [] then 0 else Used(s[..|s| - 1]) + if s[|s| - 1] != 0 then 1 else 0
  }

  lemma {:induction false} UsedAdd(s: seq<u32>, h: nat, v: u32)
    requires h < |s| && s[h] == 0 && v != 0
    ensures Used(s[h := v]) == Used(s) + 1
  {
    var t := s[h := v];
    if h < |s| - 1 {
      UsedAdd(s[..|s| - 1], h, v);
      assert t[..|s| - 1] == s[..|s| - 1][h := v];
    } else {
      assert t[..|s| - 1] == s[..|s| - 1];
    }
  }

  /** A table with fewer entries than slots has a free one. */
  lemma {:induction false} FreeSlot(s: seq<u32>) returns (k: nat)
    requires Used(s) < |s|
    ensures k < |s| && s[k] == 0
  {
    if s[|s| - 1] == 0 {
      k := |s| - 1;
    } else {
      k := FreeSlot(s[..|s| - 1]);
    }
  }

  /** A search is over before it has seen every slot. */
  lemma SearchEnds(s: seq<u32>, v: u32, d: nat)
    requires v >= 1 && Used(s) < |s| && d <= |s| && Probed(s, v, d)
    ensures d < |s|
  {
    var k := FreeSlot(s);
    var e := Dist(Home(v, |s|), k, |s|);
    assert Step(Home(v, |s|), e, |s|) == k;
  }

  /** A search that meets a free slot proves that the value is absent. */
  lemma Absent(s: seq<u32>, v: u32, d: nat)
    requires v >= 1 && d < |s| && IsTable(s) && Probed(s, v, d)
    requires s[Step(Home(v, |s|), d, |s|)] == 0
    ensures !Holds(s, v)
  {
    forall k | 0 <= k < |s|
      ensures s[k] != v
    {
      assert Chained(s, k);
      var e := Dist(Home(v, |s|), k, |s|);
      assert Step(Home(v, |s|), e, |s|) == k;
    }
  }

  /** Filling the free slot that the search for an absent value meets. */
  lemma Add(s: seq<u32>, v: u32, d: nat)
    requires v >= 1 && d < |s| && IsTable(s) && Probed(s, v, d)
    requires s[Step(Home(v, |s|), d, |s|)] == 0
    ensures var t := s[Step(Home(v, |s|), d, |s|) := v];
            IsTable(t) && Used(t) == Used(s) + 1 && forall w: nat :: Holds(t, w) <==> Holds(s, w) || w == v
  {
    var h := Step(Home(v, |s|), d, |s|);
    var t := s[h := v];
    UsedAdd(s, h, v);
    Absent(s, v, d);
    forall k | 0 <= k < |t|
      ensures Chained(t, k)
    {
      assert Chained(s, k);
      assert k != h ==> s[k] != v;
    }
    forall w: nat
      ensures Holds(t, w) <==> Holds(s, w) || w == v
    {
      assert t[h] == v;
      if Holds(s, w) {
        var k :| 0 <= k < |s| && s[k] == w != 0;
        assert t[k] == w;
      }
    }
  }

  /** An empty table. */
  lemma {:induction false} Empty(s: seq<u32>)
    requires forall k :: 0 <= k < |s| ==> s[k] == 0
    ensures IsTable(s) && Used(s) == 0 && forall v: nat :: !Holds(s, v)
  {
    if s != [] { Empty(s[..|s| - 1]); }
  }

  /** The values of a table, in its prefixes. */
  ghost function ValuesIn(s: seq<u32>): set<nat> {
    set k {:trigger s[k]} | 0 <= k < |s| && s[k] != 0 :: s[k] as nat
  }

  lemma ValuesStep(s: seq<u32>, j: nat)
    requires j < |s|
    ensures ValuesIn(s[..j + 1]) == ValuesIn(s[..j]) + if s[j] == 0 then {} else {s[j] as nat}
  {
    var t := s[..j + 1];
    assert t[..j] == s[..j] && t[j] == s[j];
    forall v: nat | v in ValuesIn(s[..j]) + if s[j] == 0 then {} else {s[j] as nat}
      ensures v in ValuesIn(t)
    {
      if v in ValuesIn(s[..j]) {
        var k :| 0 <= k < j && s[..j][k] == v != 0;
        assert t[k] == v;
      } else {
        assert t[j] == v;
      }
    }
  }

  lemma AllMoved(s: seq<u32>, was: set<nat>)
    requires forall v: nat :: Holds(s, v) <==> v in was
    ensures ValuesIn(s[..|s|]) == was
  {
    assert s[..|s|] == s;
    forall v: nat
      ensures v in ValuesIn(s) <==> Holds(s, v)
    {
    }
  }

  lemma {:induction false} UsedStep(s: seq<u32>, j: nat)
    requires j < |s|
    ensures Used(s[..j + 1]) == Used(s[..j]) + if s[j] != 0 then 1 else 0
    ensures Used(s[..j + 1]) <= Used(s)
    decreases |s| - j
  {
    assert s[..j + 1][..j] == s[..j];
    if j + 1 < |s| {
      UsedStep(s, j + 1);
    } else {
      assert s[..j + 1] == s;
    }
  }

  /** No value is in two slots. */
  lemma NotBefore(s: seq<u32>, j: nat)
    requires IsTable(s) && j < |s| && s[j] != 0
    ensures s[j] as nat !in ValuesIn(s[..j])
  {
    forall k | 0 <= k < j
      ensures s[..j][k] != s[j]
    {
      assert Chained(s, j) && Chained(s, k);
      var d, e := Dist(Home(s[j], |s|), j, |s|), Dist(Home(s[j], |s|), k, |s|);
      assert Step(Home(s[j], |s|), d, |s|) == j && Step(Home(s[j], |s|), e, |s|) == k;
    }
  }
}
