/** The generic hash table: one doubly linked list of elements, in which every bucket is a contiguous run. */
module Hash {
  import opened Basics
  import opened HashKeys
  import opened HashRuns
  import opened HashItems

  datatype Bucket = Bucket(count: nat, chain: HashElem?)

  /** Data 0 is the null pointer, which no element has. */
  class HashElem {
    var next: HashElem?
    var prev: HashElem?
    var data: nat
    var pKey: Key
    const h: u32

    constructor (pKey: Key, h: u32, data: nat)
      ensures this.pKey == pKey && this.h == h && this.data == data
    {
      this.pKey, this.h, this.data := pKey, h, data;
      next, prev := null, null;
    }
  }

  // ---- The list ----

  ghost function Before(s: seq<HashElem>, i: nat): HashElem?
    requires i < |s|
  {
    if i == 0 then null else s[i - 1]
  }

  ghost function After(s: seq<HashElem>, i: nat): HashElem?
    requires i < |s|
  {
    if i + 1 == |s| then null else s[i + 1]
  }

  ghost predicate Node(s: seq<HashElem>, i: nat)
    requires i < |s|
    reads s`next, s`prev
  {
    s[i].next == After(s, i) && s[i].prev == Before(s, i)
  }

  function Elements(s: seq<HashElem>): set<HashElem> {
    set e | e in s
  }

  predicate Distinct(s: seq<HashElem>) {
    forall i, j :: 0 <= i < |s| && 0 <= j < |s| && i != j ==> s[i] != s[j]
  }

  ghost predicate Linked(first: HashElem?, s: seq<HashElem>)
    reads s`next, s`prev
  {
    && first == (if s == [] then null else s[0])
    && Distinct(s)
    && forall i {:trigger Node(s, i)} :: 0 <= i < |s| ==> Node(s, i)
  }

  lemma Neighbours(s: seq<HashElem>, p: nat, e: HashElem, i: nat)
    requires p <= |s| && i <= |s|
    ensures var t := InsertAt(s, p, e);
            && t[i] == (if i < p then s[i] else if i == p then e else s[i - 1])
            && After(t, i) == (if i + 1 == p then e else if i < p then After(s, i)
                               else if i > p then After(s, i - 1) else if p < |s| then s[p] else null)
            && Before(t, i) == (if i == p + 1 then e else if i < p then Before(s, i)
                                else if i > p then Before(s, i - 1) else if p > 0 then s[p - 1] else null)
  {
  }

  lemma DistinctInsert(s: seq<HashElem>, p: nat, e: HashElem)
    requires p <= |s| && e !in s && Distinct(s)
    ensures Distinct(InsertAt(s, p, e)) && Elements(InsertAt(s, p, e)) == Elements(s) + {e}
  {
    assert s == s[..p] + s[p..];
  }

  lemma NeighboursRemove(s: seq<HashElem>, i: nat, k: nat)
    requires i < |s| && k + 1 < |s|
    ensures var t, x := RemoveAt(s, i), if k < i then k else k + 1;
            && t[k] == s[x]
            && After(t, k) == (if x + 1 == i then After(s, i) else After(s, x))
            && Before(t, k) == if x == i + 1 then Before(s, i) else Before(s, x)
  {
  }

  // ---- The buckets ----

  function Ids(s: seq<HashElem>, n: nat): (ids: seq<nat>)
    requires n > 0
  {
    seq(|s|, i requires 0 <= i < |s| => s[i].h % n)
  }

  function Counts(ht: seq<Bucket>): seq<nat> {
    seq(|ht|, b requires 0 <= b < |ht| => ht[b].count)
  }

  /** The chain of a bucket that is not empty points to its first element; that of an empty one may be stale. */
  ghost predicate Chains(s: seq<HashElem>, starts: seq<nat>, ht: seq<Bucket>) {
    && |starts| == |ht|
    && forall b {:trigger ht[b]} :: 0 <= b < |ht| && ht[b].count > 0 ==> starts[b] < |s| && ht[b].chain == s[starts[b]]
  }

  ghost predicate Buckets(s: seq<HashElem>, starts: seq<nat>, ht: seq<Bucket>)
    requires |ht| > 0
  {
    IsRuns(Ids(s, |ht|), starts, Counts(ht)) && Chains(s, starts, ht)
  }

  lemma IdsInsert(s: seq<HashElem>, p: nat, e: HashElem, n: nat)
    requires p <= |s| && n > 0
    ensures Ids(InsertAt(s, p, e), n) == InsertAt(Ids(s, n), p, e.h % n)
  {
  }

  lemma IdsRemove(s: seq<HashElem>, i: nat, n: nat)
    requires i < |s| && n > 0
    ensures Ids(RemoveAt(s, i), n) == RemoveAt(Ids(s, n), i)
  {
  }

  lemma CountsUpdate(ht: seq<Bucket>, b: nat, x: Bucket)
    requires b < |ht|
    ensures Counts(ht[b := x]) == Counts(ht)[b := x.count]
  {
  }

  lemma BucketsInsert(s: seq<HashElem>, starts: seq<nat>, ht: seq<Bucket>, e: HashElem, b: nat)
    requires |ht| > 0 && Buckets(s, starts, ht) && b == e.h % |ht|
    ensures var p := Spot(starts, Counts(ht), b);
            p <= |s| && Buckets(InsertAt(s, p, e), StartsUp(starts, p, b), ht[b := Bucket(ht[b].count + 1, e)])
  {
    var p := Spot(starts, Counts(ht), b);
    RunsInsert(Ids(s, |ht|), starts, Counts(ht), b);
    IdsInsert(s, p, e, |ht|);
    CountsUpdate(ht, b, Bucket(ht[b].count + 1, e));
    ChainsInsert(s, starts, ht, e, b, p);
  }

  lemma ChainsInsert(s: seq<HashElem>, starts: seq<nat>, ht: seq<Bucket>, e: HashElem, b: nat, p: nat)
    requires Chains(s, starts, ht) && b < |ht| && p <= |s|
    ensures Chains(InsertAt(s, p, e), StartsUp(starts, p, b), ht[b := Bucket(ht[b].count + 1, e)])
  {
  }

  lemma BucketsRemove(s: seq<HashElem>, starts: seq<nat>, ht: seq<Bucket>, i: nat, b: nat, chain: HashElem?)
    requires |ht| > 0 && Buckets(s, starts, ht) && Distinct(s) && i < |s| && b == s[i].h % |ht|
    requires chain == if ht[b].chain == s[i] then After(s, i) else ht[b].chain
    ensures ht[b].count > 0 && Buckets(RemoveAt(s, i), StartsDown(starts, i), ht[b := Bucket(ht[b].count - 1, chain)])
  {
    RunsRemove(Ids(s, |ht|), starts, Counts(ht), i);
    IdsRemove(s, i, |ht|);
    CountsUpdate(ht, b, Bucket(ht[b].count - 1, chain));
    ChainsRemove(s, starts, ht, i, b, chain);
  }

  lemma ChainsRemove(s: seq<HashElem>, starts: seq<nat>, ht: seq<Bucket>, i: nat, b: nat, chain: HashElem?)
    requires |ht| > 0 && Buckets(s, starts, ht) && Distinct(s) && i < |s| && b == s[i].h % |ht| && ht[b].count > 0
    requires chain == if ht[b].chain == s[i] then After(s, i) else ht[b].chain
    ensures Chains(RemoveAt(s, i), StartsDown(starts, i), ht[b := Bucket(ht[b].count - 1, chain)])
  {
    var ids, counts := Ids(s, |ht|), Counts(ht);
    var t, down := RemoveAt(s, i), StartsDown(starts, i);
    assert ids[i] == b && RunAt(ids, b, starts[b], counts[b]);
    forall x | 0 <= x < |ht| && (if x == b then ht[b].count - 1 else ht[x].count) > 0
      ensures down[x] < |t| && (if x == b then chain else ht[x].chain) == t[down[x]]
    {
      assert RunAt(ids, x, starts[x], counts[x]);
      assert ids[starts[x]] == x;
      if x == b && starts[b] == i { assert ids[i + 1] == b; }
    }
  }

  lemma Fewer(s: seq<HashElem>, i: nat)
    requires i < |s|
    ensures Elements(RemoveAt(s, i)) <= Elements(s)
  {
    forall e | e in RemoveAt(s, i) ensures e in s {}
  }

  lemma Extend(was: seq<HashElem>, n: nat)
    requires n < |was|
    ensures Elements(was[..n + 1]) == Elements(was[..n]) + {was[n]}
  {
    assert was[..n + 1] == was[..n] + [was[n]];
  }

  // ---- What the elements hold ----

  ghost predicate Holds(e: HashElem, x: Item)
    reads e`pKey, e`data
  {
    x == Item(e.pKey, e.data, e.h)
  }

  ghost predicate Agree(s: seq<HashElem>, t: seq<Item>)
    reads s`pKey, s`data
  {
    |t| == |s| && forall i {:trigger s[i]} {:trigger t[i]} :: 0 <= i < |s| ==> Holds(s[i], t[i])
  }

  lemma AgreeInsert(s: seq<HashElem>, t: seq<Item>, p: nat, e: HashElem)
    requires Agree(s, t) && p <= |s|
    ensures Agree(InsertAt(s, p, e), InsertAt(t, p, Item(e.pKey, e.data, e.h)))
  {
  }

  lemma AgreeRemove(s: seq<HashElem>, t: seq<Item>, i: nat)
    requires Agree(s, t) && i < |s|
    ensures Agree(RemoveAt(s, i), RemoveAt(t, i))
  {
  }

  /** Where the elements of u are in s, when u is another order of s. */
  lemma {:induction false} Places(s: seq<HashElem>, u: seq<HashElem>) returns (at: seq<nat>)
    requires forall j :: 0 <= j < |u| ==> u[j] in s
    ensures |at| == |u| && forall j {:trigger at[j]} :: 0 <= j < |u| ==> at[j] < |s| && s[at[j]] == u[j]
  {
    if u == [] {
      at := [];
    } else {
      var n := |u| - 1;
      at := Places(s, u[..n]);
      var i :| 0 <= i < |s| && s[i] == u[n];
      at := at + [i];
    }
  }

  /** The items in another order. */
  function Pick(t: seq<Item>, at: seq<nat>): seq<Item>
    requires forall j :: 0 <= j < |at| ==> at[j] < |t|
  {
    seq(|at|, j requires 0 <= j < |at| => t[at[j]])
  }

  /** The numbers below n, each once. */
  predicate IsOrder(at: seq<nat>, n: nat) {
    && |at| == n
    && (forall j {:trigger at[j]} :: 0 <= j < n ==> at[j] < n)
    && (forall j, l {:trigger at[j], at[l]} :: 0 <= j < n && 0 <= l < n && j != l ==> at[j] != at[l])
    && (forall i {:trigger i in at} :: 0 <= i < n ==> i in at)
  }

  /** A list in another order holds the items in that order. */
  lemma AgreeRearranged(s: seq<HashElem>, t: seq<Item>, u: seq<HashElem>) returns (v: seq<Item>)
    requires Agree(s, t) && Distinct(s) && Distinct(u) && |u| == |s| && Elements(u) == Elements(s) && IsItems(t)
    ensures Agree(u, v) && MapOf(v) == MapOf(t)
  {
    var at := FindOrder(s, t, u);
    v := Pick(t, at);
    Permuted(t, at);
  }

  lemma FindOrder(s: seq<HashElem>, t: seq<Item>, u: seq<HashElem>) returns (at: seq<nat>)
    requires Agree(s, t) && Distinct(s) && Distinct(u) && |u| == |s| && Elements(u) == Elements(s)
    ensures IsOrder(at, |t|) && Agree(u, Pick(t, at))
  {
    SameElements(s, u);
    at := Places(s, u);
    forall i | 0 <= i < |s|
      ensures i in at
    {
      assert s[i] in u;
      var j :| 0 <= j < |u| && u[j] == s[i];
      assert s[at[j]] == u[j] && at[j] == i;
    }
    forall j, l | 0 <= j < |u| && 0 <= l < |u| && j != l
      ensures at[j] != at[l]
    {
      assert s[at[j]] == u[j] && s[at[l]] == u[l];
    }
    forall j | 0 <= j < |u|
      ensures Holds(u[j], Pick(t, at)[j])
    {
      assert Holds(s[at[j]], t[at[j]]);
    }
  }

  lemma SameElements(s: seq<HashElem>, u: seq<HashElem>)
    requires Elements(u) == Elements(s)
    ensures forall e :: e in u <==> e in s
    ensures forall i :: 0 <= i < |u| ==> u[i] in s
  {
    assert forall e :: e in u <==> e in Elements(u);
    assert forall e :: e in s <==> e in Elements(s);
  }

  lemma Permuted(t: seq<Item>, at: seq<nat>)
    requires IsItems(t) && IsOrder(at, |t|)
    ensures IsItems(Pick(t, at)) && Contents(Pick(t, at)) == Contents(t)
  {
    var v := Pick(t, at);
    forall x | x in v
      ensures x in t
    {
      var j :| 0 <= j < |v| && v[j] == x;
      assert t[at[j]] == x;
    }
    forall x | x in t
      ensures x in v
    {
      var i :| 0 <= i < |t| && t[i] == x;
      assert i in at;
      var j: nat :| j < |at| && at[j] == i;
      assert v[j] == x;
    }
    forall j, l | 0 <= j < |v| && 0 <= l < |v| && j != l
      ensures !SameKey(v[j].key, v[l].key)
    {
      assert at[j] != at[l];
    }
    ContentsRearranged(t, v);
  }

  // ---- What Insert does, and whole runs ----

  /** One call of Insert, and what the allocator does during it. */
  datatype Op = Op(key: Key, data: nat, noMemory: bool)

  /**
   The map after a call, and the result: the old data or, when there is no memory for a new element, the data
   that could not be stored. Null data removes the key.
   */
  function Inserted(m: map<Key, Entry>, op: Op): (map<Key, Entry>, nat) {
    var k := Fold(op.key);
    if k in m then (if op.data == 0 then m - {k} else m[k := Entry(op.key, op.data)], m[k].data)
    else if op.data == 0 then (m, 0)
    else if op.noMemory then (m, op.data)
    else (m[k := Entry(op.key, op.data)], 0)
  }

  /** The data of a key after some calls: what the last successful call for the key stored, or null. */
  function Stored(ops: seq<Op>, k: Key): nat {
    if ops == [] then 0 else
      var op, before := ops[|ops| - 1], Stored(ops[..|ops| - 1], k);
      if Fold(op.key) != k || (before == 0 && op.noMemory) then before else op.data
  }

  /** The table after some calls of Insert, on an empty table. */
  function TableAfter(ops: seq<Op>): map<Key, Entry> {
    if ops == [] then map[] else Inserted(TableAfter(ops[..|ops| - 1]), ops[|ops| - 1]).0
  }

  lemma {:induction false} LastStored(ops: seq<Op>, k: Key)
    ensures DataOf(TableAfter(ops), k) == Stored(ops, k)
    ensures k in TableAfter(ops) <==> Stored(ops, k) != 0
  {
    if ops != [] { LastStored(ops[..|ops| - 1], k); }
  }

  lemma TableStep(ops: seq<Op>, n: nat)
    requires n < |ops|
    ensures TableAfter(ops[..n + 1]) == Inserted(TableAfter(ops[..n]), ops[n]).0
  {
    assert ops[..n + 1][..n] == ops[..n];
  }

  lemma AllOps(ops: seq<Op>)
    ensures ops[..|ops|] == ops
  {
  }

  function DataOf(m: map<Key, Entry>, k: Key): nat {
    if k in m then m[k].data else 0
  }

  // ---- How many buckets there are ----

  /** The number of buckets becomes b when there were a of them and the allocator was asked for some. */
  predicate Sized(a: nat, b: nat, requested: nat, softLimit: nat, extra: Option<nat>) {
    var size := if softLimit > 0 && requested > softLimit then softLimit else requested;
    b == if extra.None? || (softLimit > 0 && size == a) then a else size + extra.value
  }

  /** With a fifth or later element that would be more than two to a bucket, three buckets an element are asked for. */
  predicate Grown(count: nat, a: nat, b: nat, softLimit: nat, extra: Option<nat>) {
    if count < 5 || count <= 2 * a then b == a else Sized(a, b, 3 * count, softLimit, extra)
  }

  /** A call that adds no element leaves the buckets as they are, unless it empties the table. */
  predicate Resized(count: nat, a: nat, newCount: nat, b: nat, softLimit: nat, extra: Option<nat>) {
    if newCount > count then newCount == count + 1 && Grown(newCount, a, b, softLimit, extra)
    else if newCount < count then newCount + 1 == count && b == (if newCount == 0 then 0 else a)
    else b == a
  }

  /** On average at most two elements to a bucket, if there are five or more elements. */
  predicate Roomy(count: nat, htsize: nat) {
    count < 5 || count <= 2 * htsize
  }

  /** A table stays so if it gets all the buckets it asks for; if it got none, it asks again with the next element. */
  lemma StaysRoomy(count: nat, a: nat, newCount: nat, b: nat, softLimit: nat, extra: Option<nat>)
    requires Resized(count, a, newCount, b, softLimit, extra) && softLimit == 0 && extra.Some?
    ensures Roomy(count, a) || newCount > count ==> Roomy(newCount, b)
    ensures b != a && newCount > 0 ==> !Roomy(newCount, a)
  {
  }

  // ---- The table ----

  class HashTable {
    var htsize: nat
    var count: nat
    var first: HashElem?
    var ht: array?<Bucket>

    /** The elements in the order of the list, what they hold, where each bucket starts, and the buckets. */
    ghost var elems: seq<HashElem>
    ghost var items: seq<Item>
    ghost var starts: seq<nat>
    ghost var buckets: seq<Bucket>

    ghost predicate Shape()
      reads this`first, this`ht, this`htsize, this`elems, this`starts, this`buckets, ht, elems`next, elems`prev
    {
      Linked(first, elems) && Tabled() && (ht != null ==> Buckets(elems, starts, buckets))
    }

    ghost predicate Tabled()
      reads this`ht, this`htsize, this`buckets, ht
    {
      && (ht == null <==> htsize == 0)
      && (ht != null ==> ht.Length == htsize == |buckets| && ht[..] == buckets)
    }

    /** The list, the buckets and the count are as they should be, for some items. */
    ghost predicate Core()
      reads this, ht, elems
    {
      Shape() && Agree(elems, items) && count == |elems|
    }

    ghost predicate Valid()
      reads this, ht, elems
    {
      Core() && IsItems(items)
    }

    /** The map that the table stands for. */
    ghost function Map(): map<Key, Entry>
      requires IsItems(items)
      reads this`items
    {
      Contents(items)
    }

    constructor ()
      ensures Valid() && items == [] && elems == [] && ht == null
    {
      first, count, htsize, ht := null, 0, 0, null;
      elems, items, starts := [], [], [];
    }

    /** Links pNew into the list before pHead or, if that is null, at the front. */
    method Link(pNew: HashElem, pHead: HashElem?, ghost p: nat)
      requires Linked(first, elems) && pNew !in elems && p <= |elems|
      requires if pHead == null then p == 0 else p < |elems| && elems[p] == pHead
      modifies this`first, this`elems, pNew`next, pNew`prev, elems`next, elems`prev
      ensures elems == InsertAt(old(elems), p, pNew) && Linked(first, elems)
    {
      if pHead != null { LinkBefore(pNew, pHead, p); } else { LinkFirst(pNew); }
    }

    method LinkBefore(pNew: HashElem, pHead: HashElem, ghost p: nat)
      requires Linked(first, elems) && pNew !in elems && p < |elems| && elems[p] == pHead
      modifies this`first, this`elems, pNew`next, pNew`prev, elems`next, elems`prev
      ensures elems == InsertAt(old(elems), p, pNew) && Linked(first, elems)
    {
      ghost var was := elems;
      assert Node(was, p);
      pNew.next := pHead;
      pNew.prev := pHead.prev;
      if pHead.prev != null { pHead.prev.next := pNew; } else { first := pNew; }
      pHead.prev := pNew;
      elems := InsertAt(elems, p, pNew);
      forall i | 0 <= i < |was|
        ensures was[i].next == (if i + 1 == p then pNew else After(was, i))
        ensures was[i].prev == if i == p then pNew else Before(was, i)
      {
        assert old(Node(was, i));
      }
      NowLinked(was, p, pNew);
    }

    method LinkFirst(pNew: HashElem)
      requires Linked(first, elems) && pNew !in elems
      modifies this`first, this`elems, pNew`next, pNew`prev, elems`next, elems`prev
      ensures elems == InsertAt(old(elems), 0, pNew) && Linked(first, elems)
    {
      ghost var was := elems;
      pNew.next := first;
      if first != null { first.prev := pNew; }
      pNew.prev := null;
      first := pNew;
      elems := InsertAt(elems, 0, pNew);
      forall i | 0 <= i < |was|
        ensures was[i].next == After(was, i) && was[i].prev == if i == 0 then pNew else Before(was, i)
      {
        assert old(Node(was, i));
      }
      NowLinked(was, 0, pNew);
    }

    /** The list is linked again when only the neighbours of the new element have changed. */
    lemma NowLinked(s: seq<HashElem>, p: nat, e: HashElem)
      requires p <= |s| && e !in s && elems == InsertAt(s, p, e) && Distinct(s)
      requires forall i {:trigger s[i]} :: 0 <= i < |s| ==> s[i].next == if i + 1 == p then e else After(s, i)
      requires forall i {:trigger s[i]} :: 0 <= i < |s| ==> s[i].prev == if i == p then e else Before(s, i)
      requires e.next == (if p < |s| then s[p] else null) && e.prev == if p > 0 then s[p - 1] else null
      requires first == if p == 0 then e else s[0]
      ensures Linked(first, elems)
    {
      forall i | 0 <= i < |elems|
        ensures Node(elems, i)
      {
        Neighbours(s, p, e, i);
      }
      DistinctInsert(s, p, e);
    }

    /** Puts pNew into its bucket, and finds the element before which it goes into the list. */
    method Enter(pNew: HashElem) returns (pHead: HashElem?, ghost p: nat)
      requires Tabled() && ht != null && Buckets(elems, starts, buckets)
      modifies this`starts, this`buckets, ht
      ensures p <= |elems| && Tabled() && Buckets(InsertAt(elems, p, pNew), starts, buckets)
      ensures if pHead == null then p == 0 else p < |elems| && elems[p] == pHead
    {
      var b := pNew.h % htsize;
      var entry := ht[b];
      pHead := if entry.count > 0 then entry.chain else null;
      p := Spot(starts, Counts(buckets), b);
      BucketsInsert(elems, starts, buckets, pNew, b);
      ht[b] := Bucket(entry.count + 1, pNew);
      buckets := buckets[b := Bucket(entry.count + 1, pNew)];
      starts := StartsUp(starts, p, b);
    }

    /** Puts pNew into the list and, if there are buckets, into its bucket. */
    method InsertElement(pNew: HashElem) returns (ghost p: nat)
      requires Shape() && pNew !in elems
      modifies this`first, this`elems, this`starts, this`buckets, ht, pNew`next, pNew`prev, elems`next, elems`prev
      ensures Shape() && p <= |old(elems)| && elems == InsertAt(old(elems), p, pNew)
      ensures SameData(old(elems)) && pNew.pKey == old(pNew.pKey) && pNew.data == old(pNew.data)
    {
      var pHead: HashElem? := null;
      p := 0;
      if ht != null { pHead, p := Enter(pNew); }
      Link(pNew, pHead, p);
    }

    /**
     Builds new buckets and links every element again. The allocator is asked for new_size buckets, at most
     softLimit if that is not 0; it gives some more than it is asked for, as extra says, or none at all.
     */
    method Rehash(requested: nat, softLimit: nat, extra: Option<nat>) returns (done: bool)
      requires Shape() && requested > 0
      modifies this`first, this`elems, this`starts, this`buckets, this`ht, this`htsize, elems`next, elems`prev
      ensures Shape() && |elems| == |old(elems)| && Elements(elems) == Elements(old(elems))
      ensures done ==> fresh(ht)
      ensures !done ==> ht == old(ht) && elems == old(elems)
      ensures Sized(old(htsize), htsize, requested, softLimit, extra)
    {
      var new_size := if softLimit > 0 && requested > softLimit then softLimit else requested;
      if softLimit > 0 && new_size == htsize { return false; }
      if extra.None? { return false; }
      var actual := new_size + extra.value;
      ht := new Bucket[actual](_ => Bucket(0, null));
      htsize := actual;
      ghost var was := elems;
      elems, starts, buckets := [], seq(actual, _ => 0), ht[..];
      var elem := first;
      first := null;
      forall i | 0 <= i < |was| ensures was[i].next == After(was, i) { assert Node(was, i); }
      RelinkAll(elem, was);
      done := true;
    }

    /** Of the old list, the elements from n on are still linked by next; those before n are in the new one. */
    ghost predicate Relinked(was: seq<HashElem>, n: nat)
      requires n <= |was|
      reads this`elems, was`next
    {
      && Distinct(was) && |elems| == n
      && Elements(elems) == Elements(was[..n])
      && forall i {:trigger was[i]} :: n <= i < |was| ==> was[i].next == After(was, i)
    }

    method RelinkAll(first: HashElem?, ghost was: seq<HashElem>)
      requires Shape() && Relinked(was, 0) && first == if was == [] then null else was[0]
      modifies this`first, this`elems, this`starts, this`buckets, ht, was`next, was`prev
      ensures Shape() && |elems| == |was| && Elements(elems) == Elements(was)
    {
      var elem := first;
      ghost var n := 0;
      while elem != null
        invariant n <= |was| && elem == if n < |was| then was[n] else null
        invariant Shape() && Relinked(was, n)
        decreases |was| - n
      {
        elem := Relink(elem, was, n);
        n := n + 1;
      }
      assert was[..n] == was;
    }

    method Relink(elem: HashElem, ghost was: seq<HashElem>, ghost n: nat) returns (next_elem: HashElem?)
      requires Shape() && n < |was| && elem == was[n] && Relinked(was, n)
      modifies this`first, this`elems, this`starts, this`buckets, ht, was`next, was`prev
      ensures Shape() && Relinked(was, n + 1) && next_elem == After(was, n)
    {
      next_elem := elem.next;
      NotYet(was, n);
      ghost var s := elems;
      ghost var p := InsertElement(elem);
      DistinctInsert(s, p, elem);
      Extend(was, n);
    }

    lemma NotYet(was: seq<HashElem>, n: nat)
      requires n < |was| && Relinked(was, n)
      ensures forall i :: n <= i < |was| ==> was[i] !in elems
      ensures forall e :: e in elems ==> e in was
      ensures forall i :: 0 <= i < |elems| ==> elems[i] in was
    {
      assert forall e :: e in elems ==> e in Elements(was[..n]);
    }

    /** The part of the list in which a key with hash h can be: its bucket, or all of it. */
    method Candidates(h: u32, ghost pKey: Key) returns (elem: HashElem?, left: nat, ghost from: nat)
      requires Shape() && Agree(elems, items) && count == |elems|
      ensures from + left <= |elems| && (left > 0 ==> elem == elems[from])
      ensures NoMatch(items, 0, from, h, pKey) && NoMatch(items, from + left, |items|, h, pKey)
    {
      if ht != null {
        var entry := ht[h % htsize];
        elem, left := entry.chain, entry.count;
        from := if left > 0 then starts[h % htsize] else 0;
        ghost var ids := Ids(elems, htsize);
        assert RunAt(ids, h % htsize, starts[h % htsize], Counts(buckets)[h % htsize]);
        forall k | 0 <= k < |elems| && !(from <= k < from + left)
          ensures elems[k].h != h
        {
          assert ids[k] == elems[k].h % htsize;
        }
      } else {
        elem, left, from := first, count, 0;
      }
    }

    /** The element with the same key, and the hash of the key. */
    method FindElement(pKey: Key) returns (elem: HashElem?, h: u32, ghost i: nat)
      requires Valid()
      ensures h == StrHash(pKey)
      ensures elem == null ==> Fold(pKey) !in Map()
      ensures elem != null ==> i < |elems| && elem == elems[i] && SameKey(elem.pKey, pKey)
    {
      h := ComputeHash(pKey);
      var chain, n, from := Candidates(h, pKey);
      elem, i := Walk(chain, n, h, pKey, from);
      if elem == null { NotFound(items, pKey, from, from + n); }
    }

    method Walk(chain: HashElem?, count: nat, h: u32, pKey: Key, ghost from: nat)
      returns (elem: HashElem?, ghost i: nat)
      requires Linked(first, elems) && Agree(elems, items) && from + count <= |elems|
      requires (count > 0 ==> chain == elems[from])
      ensures elem == null ==> NoMatch(items, from, from + count, h, pKey)
      ensures elem != null ==> i < |elems| && elem == elems[i] && SameKey(elem.pKey, pKey)
    {
      var left := count;
      elem, i := chain, from;
      while left > 0
        invariant from <= i && i + left == from + count && (left > 0 ==> elem == elems[i])
        invariant NoMatch(items, from, i, h, pKey)
      {
        if h == elem.h && SameKey(elem.pKey, pKey) { return; }
        assert Node(elems, i) && Holds(elems[i], items[i]);
        elem := elem.next;
        left := left - 1;
        i := i + 1;
      }
      elem := null;
    }

    /** Takes an element out of the list. */
    method Unlink(elem: HashElem, ghost i: nat)
      requires Linked(first, elems) && i < |elems| && elems[i] == elem
      modifies this`first, this`elems, elems`next, elems`prev
      ensures elems == RemoveAt(old(elems), i) && Linked(first, elems)
      ensures elem.next == After(old(elems), i)
    {
      ghost var was := elems;
      assert Node(was, i);
      if elem.prev != null { elem.prev.next := elem.next; } else { first := elem.next; }
      if elem.next != null { elem.next.prev := elem.prev; }
      elems := RemoveAt(elems, i);
      forall k | 0 <= k < |was|
        ensures was[k].next == (if k + 1 == i then After(was, i) else After(was, k))
        ensures was[k].prev == if k == i + 1 then Before(was, i) else Before(was, k)
      {
        assert old(Node(was, k));
      }
      NowUnlinked(was, i);
    }

    lemma NowUnlinked(s: seq<HashElem>, i: nat)
      requires i < |s| && elems == RemoveAt(s, i) && Distinct(s)
      requires forall k {:trigger s[k]} :: 0 <= k < |s| ==> s[k].next == if k + 1 == i then After(s, i) else After(s, k)
      requires forall k {:trigger s[k]} :: 0 <= k < |s| ==>
          s[k].prev == if k == i + 1 then Before(s, i) else Before(s, k)
      requires first == if i == 0 then After(s, 0) else s[0]
      ensures Linked(first, elems)
    {
      forall k | 0 <= k < |elems|
        ensures Node(elems, k)
      {
        NeighboursRemove(s, i, k);
      }
    }

    method RemoveElement(elem: HashElem, ghost i: nat)
      requires Core() && i < |elems| && elem == elems[i]
      modifies this, ht, elems`next, elems`prev
      ensures Core() && items == RemoveAt(old(items), i)
      ensures Elements(elems) <= old(Elements(elems)) && (ht == null || ht == old(ht))
      ensures count + 1 == old(count) && htsize == if count == 0 then 0 else old(htsize)
    {
      Detach(elem, i);
      if count == 0 { ClearEmpty(); }
    }

    method ClearEmpty()
      requires Core() && count == 0
      modifies this
      ensures Core() && items == old(items) && elems == [] && ht == null && count == htsize == 0
    {
      assert first == null;
      Clear();
    }

    method Detach(elem: HashElem, ghost i: nat)
      requires Core() && i < |elems| && elem == elems[i]
      modifies this`count, this`items, this`first, this`elems, this`starts, this`buckets, ht, elems`next, elems`prev
      ensures Core() && items == RemoveAt(old(items), i) && Elements(elems) <= old(Elements(elems))
      ensures count + 1 == old(count)
    {
      TakeItem(elem, i);
      count := count - 1;
      items := RemoveAt(items, i);
    }

    method TakeItem(elem: HashElem, ghost i: nat)
      requires Shape() && Agree(elems, items) && i < |elems| && elem == elems[i]
      modifies this`first, this`elems, this`starts, this`buckets, ht, elems`next, elems`prev
      ensures Shape() && |elems| + 1 == |old(elems)| && i < |items| && Agree(elems, RemoveAt(items, i))
      ensures Elements(elems) <= old(Elements(elems))
    {
      ghost var was := elems;
      Take(elem, i);
      Fewer(was, i);
      forall k | 0 <= k < |was|
        ensures Holds(was[k], items[k])
      {
        assert old(Holds(was[k], items[k]));
      }
      AgreeRemove(was, items, i);
    }

    /** The keys and data of a list are what they were. */
    twostate predicate SameData(s: seq<HashElem>)
      reads s`pKey, s`data
    {
      forall i {:trigger s[i]} :: 0 <= i < |s| ==> s[i].pKey == old(s[i].pKey) && s[i].data == old(s[i].data)
    }

    /** Takes an element out of the list and out of its bucket. */
    method Take(elem: HashElem, ghost i: nat)
      requires Shape() && i < |elems| && elem == elems[i]
      modifies this`first, this`elems, this`starts, this`buckets, ht, elems`next, elems`prev
      ensures Shape() && elems == RemoveAt(old(elems), i) && SameData(old(elems))
    {
      ghost var was := elems;
      Unlink(elem, i);
      if ht != null { Leave(elem, was, i); }
    }

    /** Takes an element that is out of the list out of its bucket; the chain of an empty bucket may be left stale. */
    method Leave(elem: HashElem, ghost was: seq<HashElem>, ghost i: nat)
      requires i < |was| && elem == was[i] && Distinct(was) && elem.next == After(was, i)
      requires Tabled() && ht != null && Buckets(was, starts, buckets)
      modifies this`starts, this`buckets, ht
      ensures Tabled() && Buckets(RemoveAt(was, i), starts, buckets)
    {
      var b := elem.h % htsize;
      var entry := ht[b];
      var chain := if entry.chain == elem then elem.next else entry.chain;
      BucketsRemove(was, starts, buckets, i, b, chain);
      ht[b] := Bucket(entry.count - 1, chain);
      buckets := buckets[b := Bucket(entry.count - 1, chain)];
      starts := StartsDown(starts, i);
    }

    method Clear()
      modifies this
      ensures Valid() && items == [] && elems == [] && ht == null && count == htsize == 0
    {
      first, ht, htsize, count := null, null, 0, 0;
      elems, items, starts := [], [], [];
    }

    /** The data of a key, or null. */
    method Find(pKey: Key) returns (data: nat)
      requires Valid()
      ensures data == if Fold(pKey) in Map() then Map()[Fold(pKey)].data else 0
      ensures data == 0 <==> Fold(pKey) !in Map()
    {
      var elem, h, i := FindElement(pKey);
      if elem == null { return 0; }
      OldData(i);
      return elem.data;
    }

    /**
     Stores data under a key, and returns what was there before; null removes the key. When there is no memory for
     a new element, the data comes back and nothing has changed. Allocating buckets may fail too, or give more of them.
     */
    method Insert(pKey: Key, data: nat, noMemory: bool, softLimit: nat, extra: Option<nat>) returns (r: nat)
      requires Valid()
      modifies this, ht, Elements(elems)
      ensures Valid() && OwnOrNew()
      ensures (Map(), r) == Inserted(old(Map()), Op(pKey, data, noMemory))
      ensures Resized(old(count), old(htsize), count, htsize, softLimit, extra)
    {
      var elem, h, i := FindElement(pKey);
      if elem != null {
        r := InsertPresent(elem, i, pKey, data, noMemory, softLimit, extra);
      } else {
        r := InsertAbsent(pKey, h, data, noMemory, softLimit, extra);
      }
    }

    /** The elements and the buckets are those of before, or new ones. */
    twostate predicate OwnOrNew()
      reads this`elems, this`ht
    {
      fresh(Elements(elems) - old(Elements(elems))) && (ht == null || ht == old(ht) || fresh(ht))
    }

    method InsertPresent(elem: HashElem, ghost i: nat, pKey: Key, data: nat, ghost noMemory: bool,
                         ghost softLimit: nat, ghost extra: Option<nat>) returns (r: nat)
      requires Valid() && i < |elems| && elem == elems[i] && SameKey(elem.pKey, pKey)
      modifies this, ht, Elements(elems)
      ensures Valid() && OwnOrNew() && (Map(), r) == Inserted(old(Map()), Op(pKey, data, noMemory))
      ensures Resized(old(count), old(htsize), count, htsize, softLimit, extra)
    {
      OldData(i);
      r := elem.data;
      Update(elem, i, pKey, data);
    }

    method InsertAbsent(pKey: Key, h: u32, data: nat, noMemory: bool, softLimit: nat, extra: Option<nat>)
      returns (r: nat)
      requires Valid() && Fold(pKey) !in Map() && h == StrHash(pKey)
      modifies this, ht, Elements(elems)
      ensures Valid() && OwnOrNew() && (Map(), r) == Inserted(old(Map()), Op(pKey, data, noMemory))
      ensures Resized(old(count), old(htsize), count, htsize, softLimit, extra)
    {
      if data == 0 { return 0; }
      if noMemory { return data; }
      InsertNew(pKey, h, data, softLimit, extra);
      return 0;
    }

    lemma OldData(i: nat)
      requires Agree(elems, items) && IsItems(items) && i < |elems|
      ensures var k := Fold(elems[i].pKey); k in Map() && Map()[k].data == elems[i].data != 0
    {
      assert Holds(elems[i], items[i]);
      ContentsAt(items, i);
    }

    method InsertNew(pKey: Key, h: u32, data: nat, softLimit: nat, extra: Option<nat>)
      requires Valid() && Fold(pKey) !in Map() && h == StrHash(pKey) && data != 0
      modifies this, ht, Elements(elems)
      ensures Valid() && OwnOrNew() && Map() == old(Map())[Fold(pKey) := Entry(pKey, data)]
      ensures count == old(count) + 1 && Grown(count, old(htsize), htsize, softLimit, extra)
    {
      var new_elem := new HashElem(pKey, h, data);
      ghost var t, p := Add(new_elem, softLimit, extra, Item(pKey, data, h));
      ContentsAdd(t, p, Item(pKey, data, h));
    }

    /** Replaces or removes an element that is there. */
    method Update(elem: HashElem, ghost i: nat, pKey: Key, data: nat)
      requires Valid() && i < |elems| && elem == elems[i] && SameKey(elem.pKey, pKey)
      modifies this, ht, Elements(elems)
      ensures Valid() && OwnOrNew()
      ensures Map() == if data == 0 then old(Map()) - {Fold(pKey)} else old(Map())[Fold(pKey) := Entry(pKey, data)]
      ensures count <= old(count) && Resized(old(count), old(htsize), count, htsize, 0, None)
    {
      assert Holds(elems[i], items[i]);
      if data == 0 {
        ContentsRemove(items, i);
        RemoveElement(elem, i);
      } else {
        ContentsReplace(items, i, Item(pKey, data, elem.h));
        Replace(elem, i, pKey, data);
      }
    }

    method Replace(elem: HashElem, ghost i: nat, pKey: Key, data: nat)
      requires Core() && i < |elems| && elem == elems[i]
      modifies this`items, elem`data, elem`pKey
      ensures Core() && items == old(items)[i := Item(pKey, data, elem.h)]
    {
      SetData(elem, i, pKey, data);
      items := items[i := Item(pKey, data, elem.h)];
    }

    method SetData(elem: HashElem, ghost i: nat, pKey: Key, data: nat)
      requires Shape() && Agree(elems, items) && i < |elems| && elem == elems[i]
      modifies elem`data, elem`pKey
      ensures Shape() && Agree(elems, items[i := Item(pKey, data, elem.h)])
    {
      elem.data := data;
      elem.pKey := pKey;
    }

    /** Links a new element, after building more buckets if there are too few. */
    method Add(new_elem: HashElem, softLimit: nat, extra: Option<nat>, ghost x: Item)
      returns (ghost t: seq<Item>, ghost p: nat)
      requires Core() && IsItems(items) && new_elem !in Elements(elems) && Holds(new_elem, x)
      modifies this, ht, new_elem`next, new_elem`prev, Elements(elems)`next, Elements(elems)`prev
      ensures Core() && MapOf(t) == MapOf(old(items)) && p <= |t| && items == InsertAt(t, p, x)
      ensures Elements(elems) == old(Elements(elems)) + {new_elem} && (ht == old(ht) || fresh(ht))
      ensures count == old(count) + 1 && Grown(count, old(htsize), htsize, softLimit, extra)
    {
      t := GrowIfFull(new_elem, softLimit, extra);
      p := Place(new_elem, x);
    }

    /** Counts a new element, and makes room for it. */
    method GrowIfFull(ghost new_elem: HashElem, softLimit: nat, extra: Option<nat>) returns (ghost t: seq<Item>)
      requires Core() && IsItems(items) && new_elem !in Elements(elems)
      modifies this`count, this`first, this`elems, this`items, this`starts, this`buckets, this`ht, this`htsize
      modifies Elements(elems)`next, Elements(elems)`prev
      ensures Shape() && Agree(elems, items) && count == |elems| + 1 && t == items && MapOf(t) == MapOf(old(items))
      ensures new_elem !in Elements(elems) && Elements(elems) == old(Elements(elems)) && (ht == old(ht) || fresh(ht))
      ensures count == old(count) + 1 && Grown(count, old(htsize), htsize, softLimit, extra)
    {
      count := count + 1;
      if count < 5 || count <= 2 * htsize { return items; }
      t := Grow(new_elem, softLimit, extra);
    }

    method Place(new_elem: HashElem, ghost x: Item) returns (ghost p: nat)
      requires Shape() && Agree(elems, items) && new_elem !in Elements(elems) && Holds(new_elem, x)
      modifies this`first, this`elems, this`items, this`starts, this`buckets, ht, new_elem`next, new_elem`prev
      modifies Elements(elems)`next, Elements(elems)`prev
      ensures Shape() && Agree(elems, items) && |elems| == |old(elems)| + 1
      ensures p <= |old(items)| && items == InsertAt(old(items), p, x)
      ensures Elements(elems) == old(Elements(elems)) + {new_elem}
    {
      ghost var was := elems;
      p := InsertElement(new_elem);
      DistinctInsert(was, p, new_elem);
      forall k | 0 <= k < |was|
        ensures Holds(was[k], items[k])
      {
        assert old(Holds(was[k], items[k]));
      }
      AgreeInsert(was, items, p, new_elem);
      items := InsertAt(items, p, x);
    }

    method Grow(ghost new_elem: HashElem, softLimit: nat, extra: Option<nat>) returns (ghost t: seq<Item>)
      requires Shape() && Agree(elems, items) && IsItems(items) && new_elem !in Elements(elems) && count > 0
      modifies this`first, this`elems, this`items, this`starts, this`buckets, this`ht, this`htsize, Elements(elems)`next
      modifies Elements(elems)`prev
      ensures Shape() && Agree(elems, items) && |elems| == |old(elems)| && t == items && MapOf(t) == MapOf(old(items))
      ensures new_elem !in Elements(elems) && Elements(elems) == old(Elements(elems)) && (ht == old(ht) || fresh(ht))
      ensures Sized(old(htsize), htsize, 3 * count, softLimit, extra)
    {
      t := RehashItems(softLimit, extra);
      items := t;
    }

    method RehashItems(softLimit: nat, extra: Option<nat>) returns (ghost t: seq<Item>)
      requires Shape() && Agree(elems, items) && IsItems(items) && count > 0
      modifies this`first, this`elems, this`starts, this`buckets, this`ht, this`htsize, elems`next, elems`prev
      ensures Shape() && |elems| == |old(elems)| && Elements(elems) == Elements(old(elems))
      ensures (ht == old(ht) || fresh(ht)) && Sized(old(htsize), htsize, 3 * count, softLimit, extra)
      ensures Agree(elems, t) && MapOf(t) == MapOf(items)
    {
      ghost var was := elems;
      var done := Rehash(count * 3, softLimit, extra);
      t := AgreeRearranged(was, items, elems);
    }
  }

  /** What a call gives back: the data stored before it, or its own data if that could not be stored. */
  lemma Result(ops: seq<Op>, n: nat)
    requires n < |ops|
    ensures var op, before := ops[n], Stored(ops[..n], Fold(ops[n].key));
            Inserted(TableAfter(ops[..n]), op).1 == if before == 0 && op.noMemory then op.data else before
  {
    LastStored(ops[..n], Fold(ops[n].key));
  }

  /** The results of the first n calls. */
  ghost predicate Results(ops: seq<Op>, results: seq<nat>) {
    && |results| <= |ops|
    && forall i {:trigger results[i]} :: 0 <= i < |results| ==>
        var before := Stored(ops[..i], Fold(ops[i].key));
        results[i] == if before == 0 && ops[i].noMemory then ops[i].data else before
  }

  lemma NextResult(ops: seq<Op>, results: seq<nat>, r: nat)
    requires Results(ops, results) && |results| < |ops|
    requires r == Inserted(TableAfter(ops[..|results|]), ops[|results|]).1
    ensures Results(ops, results + [r])
  {
    Result(ops, |results|);
  }

  /**
   Any calls of Insert on a new table, and then a Find. extra tells how many more buckets than it asks for each call
   is given, or that it is given none.
   */
  method RunInserts(ops: seq<Op>, softLimit: nat, extra: seq<Option<nat>>, pKey: Key)
    returns (r: nat, results: seq<nat>, count: nat, htsize: nat)
    requires |extra| == |ops|
    ensures r == Stored(ops, Fold(pKey))
    ensures |results| == |ops| && Results(ops, results)
    ensures softLimit == 0 && None !in extra ==> Roomy(count, htsize)
  {
    var table := new HashTable();
    results := [];
    for n := 0 to |ops|
      invariant table.Valid() && fresh(table) && fresh(Elements(table.elems)) && (table.ht == null || fresh(table.ht))
      invariant table.Map() == TableAfter(ops[..n])
      invariant |results| == n && Results(ops, results)
      invariant softLimit == 0 && None !in extra ==> Roomy(table.count, table.htsize)
    {
      TableStep(ops, n);
      ghost var a, b := table.count, table.htsize;
      var old_data := table.Insert(ops[n].key, ops[n].data, ops[n].noMemory, softLimit, extra[n]);
      NextResult(ops, results, old_data);
      results := results + [old_data];
      if softLimit == 0 && extra[n].Some? { StaysRoomy(a, b, table.count, table.htsize, softLimit, extra[n]); }
    }
    AllOps(ops);
    LastStored(ops, Fold(pKey));
    r := table.Find(pKey);
    count, htsize := table.count, table.htsize;
  }
}
