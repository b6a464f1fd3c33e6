/** Keys without regard to case: comparing them, and hashing them so that equal keys have equal hashes. */
module HashKeys {
  import opened Basics

  type Key = seq<bv8>

  /** The table sqlite3UpperToLower: only the ASCII letters change. */
  function Lower(c: bv8): bv8 {
    if 0x41 <= c <= 0x5a then c + 0x20 else c
  }

  function Fold(k: Key): (r: Key)
    ensures |r| == |k|
  {
    seq(|k|, i requires 0 <= i < |k| => Lower(k[i]))
  }

  predicate SameKey(a: Key, b: Key) {
    Fold(a) == Fold(b)
  }

  /** The same letter, one of them in upper and the other in lower case. */
  predicate IsOtherCase(a: bv8, b: bv8) {
    || (0x41 <= a <= 0x5a && b == a + 0x20)
    || (0x41 <= b <= 0x5a && a == b + 0x20)
  }

  lemma SameLower(a: bv8, b: bv8)
    ensures Lower(a) == Lower(b) <==> a == b || IsOtherCase(a, b)
  {
  }

  /** Keys are the same if they are equally long, and equal byte by byte but for the case of ASCII letters. */
  lemma SameKeyIs(a: Key, b: Key)
    ensures SameKey(a, b) <==>
              |a| == |b| && forall i :: 0 <= i < |a| ==> a[i] == b[i] || IsOtherCase(a[i], b[i])
  {
    if |a| == |b| {
      forall i | 0 <= i < |a| ensures Fold(a)[i] == Fold(b)[i] <==> a[i] == b[i] || IsOtherCase(a[i], b[i]) {
        SameLower(a[i], b[i]);
      }
      assert Fold(a) == Fold(b) <==> forall i :: 0 <= i < |a| ==> Fold(a)[i] == Fold(b)[i];
    }
  }

  /** One step of Knuth's multiplicative hash, on 32 bits; the bit for lower case is left out. */
  function Mix(h: u32, c: bv8): u32 {
    ((h + (0xdf & c) as int) % 0x1_0000_0000) * 0x9e3779b1 % 0x1_0000_0000
  }

  function StrHash(k: Key): u32 {
    if k == [] then 0 else Mix(StrHash(k[..|k| - 1]), k[|k| - 1])
  }

  lemma SameByte(a: bv8, b: bv8)
    requires Lower(a) == Lower(b)
    ensures 0xdf & a == 0xdf & b
  {
  }

  /** Keys that differ only in case have the same hash. */
  lemma {:induction false} SameHash(a: Key, b: Key)
    requires SameKey(a, b)
    ensures StrHash(a) == StrHash(b)
  {
    assert |a| == |Fold(a)| == |Fold(b)| == |b|;
    if a != [] {
      var n := |a| - 1;
      assert Fold(a)[n] == Fold(b)[n];
      SameByte(a[n], b[n]);
      assert Fold(a[..n]) == Fold(a)[..n] == Fold(b)[..n] == Fold(b[..n]);
      SameHash(a[..n], b[..n]);
    }
  }

  method ComputeHash(z: Key) returns (h: u32)
    ensures h == StrHash(z)
  {
    h := 0;
    var i := 0;
    while i < |z|
      invariant 0 <= i <= |z| && h == StrHash(z[..i])
    {
      assert z[..i + 1][..i] == z[..i];
      var x: u32 := (h + (0xdf & z[i]) as int) % 0x1_0000_0000;
      h := x * 0x9e3779b1 % 0x1_0000_0000;
      i := i + 1;
    }
    assert z[..|z|] == z;
  }
}
