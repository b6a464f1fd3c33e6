/** Dropping a table: its root pages are destroyed, and other roots are moved into the gaps. */
module DestroyTable {

  // ---- What the b-tree layer does ----

  /** The trees of a file: for each root page, the page at which its tree was before. */
  type Roots = map<nat, nat>

  predicate IsLargest(m: nat, s: set<nat>) {
    m in s && forall x :: x in s ==> x <= m
  }

  lemma {:induction false} HasLargest(s: set<nat>) returns (m: nat)
    requires s != {}
    ensures IsLargest(m, s)
  {
    var x :| x in s;
    var rest := s - {x};
    if rest == {} {
      assert s == {x};
      m := x;
    } else {
      var l := HasLargest(rest);
      m := if l < x then x else l;
      assert forall y :: y in s ==> y == x || y in rest;
    }
  }

  /** Destroying the tree at page p; the largest root page m is moved to p, so that no gap is left. */
  function Destroyed(f: Roots, p: nat, m: nat): Roots
    requires m in f
  {
    if p == m then f - {p} else (f - {m})[p := f[m]]
  }

  /** The page numbers in memory after a root was moved: every one that was iFrom is now iTo. */
  function Moved(tnums: seq<nat>, iFrom: nat, iTo: nat): (r: seq<nat>)
    ensures |r| == |tnums|
  {
    seq(|tnums|, j requires 0 <= j < |tnums| => if tnums[j] == iFrom then iTo else tnums[j])
  }

  /** The file and the page numbers in memory. */
  datatype State = State(f: Roots, tnums: seq<nat>)

  /** One OP_Destroy, and the update of the numbers in memory. */
  ghost predicate Step(s: State, p: nat, s': State) {
    && p in s.f
    && exists m :: IsLargest(m, s.f.Keys) && s'.f == Destroyed(s.f, p, m)
        && s'.tnums == if p == m then s.tnums else Moved(s.tnums, m, p)
  }

  /** A run that destroys the trees at the given pages, one after the other. */
  ghost predicate IsRun(run: seq<State>, pages: seq<nat>) {
    |run| == |pages| + 1 && forall k {:trigger pages[k]} :: 0 <= k < |pages| ==> Step(run[k], pages[k], run[k + 1])
  }

  // ---- Going down ----

  predicate Descending(pages: seq<nat>) {
    forall i, j {:trigger pages[i], pages[j]} :: 0 <= i < j < |pages| ==> pages[i] > pages[j]
  }

  /** At first every tree is where it is. */
  predicate AtHome(f: Roots) {
    forall p {:trigger f[p]} {:trigger p in f} :: p in f ==> f[p] == p
  }

  /**
   After k steps: the trees that are still to be destroyed have not moved, and every other number in memory leads to
   its tree.
   */
  ghost predicate Tracked(s0: State, s: State, pages: seq<nat>, k: nat)
    requires k <= |pages|
  {
    && |s.tnums| == |s0.tnums|
    && Unmoved(s, pages, k) && OnlyLeft(s0, s, pages[..k]) && AllLeft(s0, s, pages[..k]) && Followed(s0, s, pages[..k])
  }

  predicate Unmoved(s: State, pages: seq<nat>, k: nat) {
    forall i {:trigger pages[i]} :: k <= i < |pages| ==> pages[i] in s.f && s.f[pages[i]] == pages[i]
  }

  ghost predicate OnlyLeft(s0: State, s: State, gone: seq<nat>) {
    forall p {:trigger p in s.f} :: p in s.f ==> s.f[p] in s0.f && s.f[p] !in gone
  }

  ghost predicate AllLeft(s0: State, s: State, gone: seq<nat>) {
    forall q {:trigger q in s0.f} :: q in s0.f && q !in gone ==> exists p :: p in s.f && s.f[p] == q
  }

  ghost predicate Followed(s0: State, s: State, gone: seq<nat>)
  {
    |s.tnums| == |s0.tnums| &&
    forall j {:trigger s.tnums[j]} :: 0 <= j < |s.tnums| && s0.tnums[j] in s0.f && s0.tnums[j] !in gone ==>
      s.tnums[j] in s.f && s.f[s.tnums[j]] == s0.tnums[j]
  }

  /** No tree is at two pages. */
  predicate Injective(f: Roots) {
    forall x, y {:trigger f[x], f[y]} :: x in f && y in f && f[x] == f[y] ==> x == y
  }

  lemma UnmovedStep(s: State, s': State, pages: seq<nat>, k: nat, m: nat)
    requires Descending(pages) && k < |pages| && Unmoved(s, pages, k)
    requires IsLargest(m, s.f.Keys) && s'.f == Destroyed(s.f, pages[k], m)
    ensures Unmoved(s', pages, k + 1)
  {
    assert pages[k] in s.f.Keys;
  }

  lemma LeftStep(s0: State, s: State, s': State, gone: seq<nat>, p: nat, m: nat)
    requires OnlyLeft(s0, s, gone) && AllLeft(s0, s, gone) && Injective(s.f) && p in s.f && s.f[p] == p && m in s.f
    requires s'.f == Destroyed(s.f, p, m)
    ensures OnlyLeft(s0, s', gone + [p]) && AllLeft(s0, s', gone + [p])
  {
    forall q | q in s0.f && q !in gone + [p]
      ensures exists x :: x in s'.f && s'.f[x] == q
    {
      var x :| x in s.f && s.f[x] == q;
      assert s'.f[if x == m then p else x] == q;
    }
  }

  lemma FollowedStep(s0: State, s: State, s': State, gone: seq<nat>, p: nat, m: nat)
    requires Followed(s0, s, gone) && Injective(s.f) && p in s.f && s.f[p] == p && m in s.f
    requires s'.f == Destroyed(s.f, p, m) && s'.tnums == if p == m then s.tnums else Moved(s.tnums, m, p)
    ensures Followed(s0, s', gone + [p])
  {
    forall j | 0 <= j < |s'.tnums| && s0.tnums[j] in s0.f && s0.tnums[j] !in gone + [p]
      ensures s'.tnums[j] in s'.f && s'.f[s'.tnums[j]] == s0.tnums[j]
    {
      assert s.f[s.tnums[j]] == s0.tnums[j];
    }
  }

  lemma StepTracked(s0: State, s: State, s': State, pages: seq<nat>, k: nat)
    requires Descending(pages) && k < |pages| && Tracked(s0, s, pages, k) && Step(s, pages[k], s') && Injective(s.f)
    ensures Tracked(s0, s', pages, k + 1) && Injective(s'.f)
  {
    var p := pages[k];
    var m :| IsLargest(m, s.f.Keys) && s'.f == Destroyed(s.f, p, m)
        && s'.tnums == if p == m then s.tnums else Moved(s.tnums, m, p);
    assert pages[..k + 1] == pages[..k] + [p];
    UnmovedStep(s, s', pages, k, m);
    LeftStep(s0, s, s', pages[..k], p, m);
    FollowedStep(s0, s, s', pages[..k], p, m);
  }

  /**
   Destroying roots in descending order: at each step the page holds the tree that was to be destroyed, and at the
   end exactly those trees are gone, and every other page number in memory still leads to its own tree.
   */
  lemma {:induction false} RunTracked(run: seq<State>, pages: seq<nat>, k: nat)
    requires IsRun(run, pages) && k <= |pages| && Descending(pages)
    requires AtHome(run[0].f) && (forall i :: 0 <= i < |pages| ==> pages[i] in run[0].f)
    ensures Tracked(run[0], run[k], pages, k)
    ensures Injective(run[k].f)
  {
    if k > 0 {
      RunTracked(run, pages, k - 1);
      assert Step(run[k - 1], pages[k - 1], run[k - 1 + 1]);
      StepTracked(run[0], run[k - 1], run[k], pages, k - 1);
    }
  }

  /**
   A smaller root must not go first: destroying page p moves the tree of the largest page q there, before q is
   destroyed.
   */
  lemma AscendingFails(s: State, s': State, p: nat, q: nat)
    requires p < q && IsLargest(q, s.f.Keys) && Step(s, p, s')
    ensures q !in s'.f && p in s'.f && s'.f[p] == s.f[q]
  {
    var m :| IsLargest(m, s.f.Keys) && s'.f == Destroyed(s.f, p, m);
    assert m == q;
  }

  // ---- The methods ----

  class Schema {
    /** The root page numbers of the tables and indices in memory, with those of some that are deleted. */
    var tnums: array<nat>

    constructor (tnums: array<nat>)
      ensures this.tnums == tnums
    {
      this.tnums := tnums;
    }

    method RootPageMoved(iFrom: nat, iTo: nat)
      modifies tnums
      ensures tnums[..] == Moved(old(tnums[..]), iFrom, iTo)
    {
      var i := 0;
      while i < tnums.Length
        invariant 0 <= i <= tnums.Length
        invariant forall j :: 0 <= j < i ==> tnums[j] == if old(tnums[j]) == iFrom then iTo else old(tnums[j])
        invariant forall j :: i <= j < tnums.Length ==> tnums[j] == old(tnums[j])
      {
        if tnums[i] == iFrom { tnums[i] := iTo; }
        i := i + 1;
      }
    }
  }

  /** The largest of the table's and the indices' root pages that is smaller than iDestroyed, or 0. */
  method LargestBelow(iTab: nat, indices: seq<nat>, iDestroyed: nat) returns (iLargest: nat)
    ensures iLargest == 0 || (iLargest in [iTab] + indices && (iDestroyed == 0 || iLargest < iDestroyed))
    ensures forall r :: r in [iTab] + indices && (iDestroyed == 0 || r < iDestroyed) ==> r <= iLargest
  {
    iLargest := 0;
    if iDestroyed == 0 || iTab < iDestroyed { iLargest := iTab; }
    var i := 0;
    while i < |indices|
      invariant 0 <= i <= |indices|
      invariant iLargest == 0 || (iLargest in [iTab] + indices && (iDestroyed == 0 || iLargest < iDestroyed))
      invariant (iDestroyed == 0 || iTab < iDestroyed) ==> iTab <= iLargest
      invariant forall j :: 0 <= j < i && (iDestroyed == 0 || indices[j] < iDestroyed) ==> indices[j] <= iLargest
    {
      var iIdx := indices[i];
      if (iDestroyed == 0 || iIdx < iDestroyed) && iIdx > iLargest { iLargest := iIdx; }
      i := i + 1;
    }
  }

  /** Each distinct root page of a table and its indices is destroyed once, the largest first. */
  method Destroy(iTab: nat, indices: seq<nat>) returns (pages: seq<nat>)
    ensures Descending(pages)
    ensures forall r :: r in pages <==> r > 0 && r in [iTab] + indices
  {
    pages := [];
    var iDestroyed := 0;
    while true
      invariant Descending(pages)
      invariant if iDestroyed == 0 then pages == [] else pages != [] && pages[|pages| - 1] == iDestroyed
      invariant forall r :: r in pages ==> r > 0 && r in [iTab] + indices
      invariant iDestroyed > 0 ==> forall r :: r in [iTab] + indices && r >= iDestroyed ==> r in pages
      decreases if iDestroyed == 0 then 1 else 0, iDestroyed
    {
      var iLargest := LargestBelow(iTab, indices, iDestroyed);
      if iLargest == 0 { return; }
      pages := pages + [iLargest];
      iDestroyed := iLargest;
    }
  }
}
