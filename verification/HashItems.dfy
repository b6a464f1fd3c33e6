/** The map that a list of keys and data stands for. */
module HashItems {
  import opened Basics
  import opened HashKeys
  import opened HashRuns

  /** What an element holds: the spelling of its key, its data, and the hash of the key. */
  datatype Item = Item(key: Key, data: nat, h: u32)

  /** What a key maps to: the spelling that was stored last, and the data. */
  datatype Entry = Entry(key: Key, data: nat)

  /** Keys are stored with their hashes, no key twice, and never with the null pointer. */
  predicate IsItems(s: seq<Item>) {
    && (forall i {:trigger s[i]} :: 0 <= i < |s| ==> s[i].h == StrHash(s[i].key) && s[i].data != 0)
    && (forall i, j {:trigger s[i], s[j]} :: 0 <= i < |s| && 0 <= j < |s| && i != j ==> !SameKey(s[i].key, s[j].key))
  }

  function Contents(s: seq<Item>): map<Key, Entry>
    requires IsItems(s)
  {
    map i {:trigger s[i]} | 0 <= i < |s| :: Fold(s[i].key) := Entry(s[i].key, s[i].data)
  }

  /** The map of a list, if its items are in order. */
  function MapOf(s: seq<Item>): Option<map<Key, Entry>> {
    if IsItems(s) then Some(Contents(s)) else None
  }

  /** The items with the same hash and key are not in this part. */
  predicate NoMatch(s: seq<Item>, from: nat, to: nat, h: u32, key: Key)
    requires to <= |s|
  {
    forall k {:trigger s[k]} :: from <= k < to ==> s[k].h != h || !SameKey(s[k].key, key)
  }

  lemma NotFound(s: seq<Item>, key: Key, from: nat, to: nat)
    requires IsItems(s) && from <= to <= |s|
    requires NoMatch(s, 0, from, StrHash(key), key) && NoMatch(s, from, to, StrHash(key), key)
    requires NoMatch(s, to, |s|, StrHash(key), key)
    ensures Fold(key) !in Contents(s)
  {
    forall i | 0 <= i < |s|
      ensures !SameKey(s[i].key, key)
    {
      if SameKey(s[i].key, key) { SameHash(s[i].key, key); }
    }
  }

  lemma ContentsAt(s: seq<Item>, i: nat)
    requires IsItems(s) && i < |s|
    ensures Fold(s[i].key) in Contents(s) && Contents(s)[Fold(s[i].key)] == Entry(s[i].key, s[i].data)
  {
  }

  predicate HasFold(s: seq<Item>, i: nat, k: Key)
    requires i < |s|
  {
    Fold(s[i].key) == k
  }

  /** The contents are the map that has the entries of the items, and no other keys. */
  lemma ContentsAre(s: seq<Item>, m: map<Key, Entry>)
    requires IsItems(s)
    requires forall i {:trigger s[i]} :: 0 <= i < |s| ==>
        Fold(s[i].key) in m && m[Fold(s[i].key)] == Entry(s[i].key, s[i].data)
    requires forall k {:trigger k in m} :: k in m ==>
        exists i {:trigger HasFold(s, i, k)} :: 0 <= i < |s| && HasFold(s, i, k)
    ensures Contents(s) == m
  {
    forall k | k in m
      ensures k in Contents(s) && Contents(s)[k] == m[k]
    {
      var i :| 0 <= i < |s| && HasFold(s, i, k);
      ContentsAt(s, i);
    }
  }

  lemma ItemOf(s: seq<Item>, k: Key) returns (i: nat)
    requires IsItems(s) && k in Contents(s)
    ensures i < |s| && Fold(s[i].key) == k && Contents(s)[k] == Entry(s[i].key, s[i].data)
  {
    i :| 0 <= i < |s| && Fold(s[i].key) == k;
    ContentsAt(s, i);
  }

  lemma RemoveItems(s: seq<Item>, i: nat)
    requires IsItems(s) && i < |s|
    ensures IsItems(RemoveAt(s, i))
    ensures forall j {:trigger s[j]} :: 0 <= j < |s| && j != i ==> s[j] == RemoveAt(s, i)[if j < i then j else j - 1]
    ensures forall j {:trigger RemoveAt(s, i)[j]} :: 0 <= j < |s| - 1 ==>
        RemoveAt(s, i)[j] == s[if j < i then j else j + 1]
  {
  }

  lemma ContentsRemove(s: seq<Item>, i: nat)
    requires IsItems(s) && i < |s|
    ensures IsItems(RemoveAt(s, i)) && Contents(RemoveAt(s, i)) == Contents(s) - {Fold(s[i].key)}
  {
    RemoveItems(s, i);
    ContentsWithout(s, RemoveAt(s, i), i);
  }

  lemma ContentsWithout(s: seq<Item>, t: seq<Item>, i: nat)
    requires IsItems(s) && IsItems(t) && i < |s| == |t| + 1
    requires forall j {:trigger s[j]} :: 0 <= j < |s| && j != i ==> s[j] == t[if j < i then j else j - 1]
    requires forall j {:trigger t[j]} :: 0 <= j < |s| - 1 ==> t[j] == s[if j < i then j else j + 1]
    ensures Contents(t) == Contents(s) - {Fold(s[i].key)}
  {
    var m := Contents(s) - {Fold(s[i].key)};
    forall j | 0 <= j < |t|
      ensures Fold(t[j].key) in m && m[Fold(t[j].key)] == Entry(t[j].key, t[j].data)
    {
      OtherItem(s, i, if j < i then j else j + 1);
    }
    forall k | k in m
      ensures exists j {:trigger HasFold(t, j, k)} :: 0 <= j < |t| && HasFold(t, j, k)
    {
      var j := ItemOf(s, k);
      assert HasFold(t, if j < i then j else j - 1, k);
    }
    ContentsAre(t, m);
  }

  lemma OtherItem(s: seq<Item>, i: nat, j: nat)
    requires IsItems(s) && i < |s| && j < |s| && i != j
    ensures var m := Contents(s) - {Fold(s[i].key)};
            Fold(s[j].key) in m && m[Fold(s[j].key)] == Entry(s[j].key, s[j].data)
  {
    ContentsAt(s, j);
  }

  lemma InsertedAt(s: seq<Item>, p: nat, x: Item)
    requires p <= |s|
    ensures InsertAt(s, p, x)[p] == x
    ensures forall j {:trigger s[j]} :: 0 <= j < |s| ==> s[j] == InsertAt(s, p, x)[if j < p then j else j + 1]
    ensures forall j {:trigger InsertAt(s, p, x)[j]} :: 0 <= j <= |s| && j != p ==>
        InsertAt(s, p, x)[j] == s[if j < p then j else j - 1]
  {
  }

  lemma AddItems(s: seq<Item>, t: seq<Item>, p: nat, x: Item)
    requires IsItems(s) && p < |t| == |s| + 1 && Fold(x.key) !in Contents(s) && x.h == StrHash(x.key) && x.data != 0
    requires t[p] == x
    requires forall j {:trigger t[j]} :: 0 <= j <= |s| && j != p ==> t[j] == s[if j < p then j else j - 1]
    ensures IsItems(t)
  {
    forall j | 0 <= j < |s|
      ensures !SameKey(s[j].key, x.key)
    {
      ContentsAt(s, j);
    }
  }

  lemma ContentsAdd(s: seq<Item>, p: nat, x: Item)
    requires IsItems(s) && p <= |s| && Fold(x.key) !in Contents(s) && x.h == StrHash(x.key) && x.data != 0
    ensures IsItems(InsertAt(s, p, x))
    ensures Contents(InsertAt(s, p, x)) == Contents(s)[Fold(x.key) := Entry(x.key, x.data)]
  {
    InsertedAt(s, p, x);
    ContentsWith(s, InsertAt(s, p, x), p, x);
  }

  lemma ContentsWith(s: seq<Item>, t: seq<Item>, p: nat, x: Item)
    requires IsItems(s) && p < |t| == |s| + 1 && Fold(x.key) !in Contents(s) && x.h == StrHash(x.key) && x.data != 0
    requires t[p] == x
    requires forall j {:trigger s[j]} :: 0 <= j < |s| ==> s[j] == t[if j < p then j else j + 1]
    requires forall j {:trigger t[j]} :: 0 <= j <= |s| && j != p ==> t[j] == s[if j < p then j else j - 1]
    ensures IsItems(t) && Contents(t) == Contents(s)[Fold(x.key) := Entry(x.key, x.data)]
  {
    AddItems(s, t, p, x);
    var m := Contents(s)[Fold(x.key) := Entry(x.key, x.data)];
    forall j | 0 <= j < |t|
      ensures Fold(t[j].key) in m && m[Fold(t[j].key)] == Entry(t[j].key, t[j].data)
    {
      if j != p { ContentsAt(s, if j < p then j else j - 1); }
    }
    forall k | k in m
      ensures exists j {:trigger HasFold(t, j, k)} :: 0 <= j < |t| && HasFold(t, j, k)
    {
      if k == Fold(x.key) {
        assert HasFold(t, p, k);
      } else {
        var j := ItemOf(s, k);
        assert HasFold(t, if j < p then j else j + 1, k);
      }
    }
    ContentsAre(t, m);
  }

  lemma ReplaceItems(s: seq<Item>, i: nat, x: Item)
    requires IsItems(s) && i < |s| && SameKey(s[i].key, x.key) && x.h == s[i].h && x.data != 0
    ensures IsItems(s[i := x])
  {
    SameHash(s[i].key, x.key);
  }

  lemma ContentsReplace(s: seq<Item>, i: nat, x: Item)
    requires IsItems(s) && i < |s| && SameKey(s[i].key, x.key) && x.h == s[i].h && x.data != 0
    ensures IsItems(s[i := x]) && Contents(s[i := x]) == Contents(s)[Fold(x.key) := Entry(x.key, x.data)]
  {
    ReplaceItems(s, i, x);
    var t, m := s[i := x], Contents(s)[Fold(x.key) := Entry(x.key, x.data)];
    forall j | 0 <= j < |t|
      ensures Fold(t[j].key) in m && m[Fold(t[j].key)] == Entry(t[j].key, t[j].data)
    {
      ContentsAt(s, j);
    }
    forall k | k in m
      ensures exists j {:trigger HasFold(t, j, k)} :: 0 <= j < |t| && HasFold(t, j, k)
    {
      if k == Fold(x.key) {
        assert HasFold(t, i, k);
      } else {
        var j := ItemOf(s, k);
        assert HasFold(t, j, k);
      }
    }
    ContentsAre(t, m);
  }

  /** Another order of the same items is the same map. */
  lemma ContentsRearranged(s: seq<Item>, t: seq<Item>)
    requires IsItems(s) && IsItems(t)
    requires forall x :: x in s <==> x in t
    ensures Contents(s) == Contents(t)
  {
    forall j | 0 <= j < |t|
      ensures Fold(t[j].key) in Contents(s) && Contents(s)[Fold(t[j].key)] == Entry(t[j].key, t[j].data)
    {
      assert t[j] in s;
      var i :| 0 <= i < |s| && s[i] == t[j];
      ContentsAt(s, i);
    }
    forall k | k in Contents(s)
      ensures exists j {:trigger HasFold(t, j, k)} :: 0 <= j < |t| && HasFold(t, j, k)
    {
      var i := ItemOf(s, k);
      assert s[i] in t;
      var j :| 0 <= j < |t| && s[i] == t[j];
      assert HasFold(t, j, k);
    }
    ContentsAre(t, Contents(s));
  }
}
