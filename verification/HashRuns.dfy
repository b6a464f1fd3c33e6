/** Buckets as contiguous runs of one list: where each run starts, and how it moves when the list changes. */
module HashRuns {

  /** The elements of bucket b are those at s..s+c; if there are none, s means nothing. */
  predicate RunAt(ids: seq<nat>, b: nat, s: nat, c: nat) {
    && (c > 0 ==> s + c <= |ids|)
    && forall k {:trigger ids[k]} :: 0 <= k < |ids| ==> (ids[k] == b <==> s <= k < s + c)
  }

  predicate IsRuns(ids: seq<nat>, starts: seq<nat>, counts: seq<nat>) {
    && |starts| == |counts|
    && (forall k {:trigger ids[k]} :: 0 <= k < |ids| ==> ids[k] < |counts|)
    && forall b {:trigger counts[b]} :: 0 <= b < |counts| ==> RunAt(ids, b, starts[b], counts[b])
  }

  /** Where an element of bucket b is put: before the bucket's first element or, if it is empty, at the front. */
  function Spot(starts: seq<nat>, counts: seq<nat>, b: nat): nat
    requires b < |starts| == |counts|
  {
    if counts[b] > 0 then starts[b] else 0
  }

  function InsertAt<T>(s: seq<T>, p: nat, x: T): seq<T>
    requires p <= |s|
  {
    s[..p] + [x] + s[p..]
  }

  function RemoveAt<T>(s: seq<T>, i: nat): seq<T>
    requires i < |s|
  {
    s[..i] + s[i + 1..]
  }

  /** The starts after an insertion at p. */
  function StartsUp(starts: seq<nat>, p: nat, b: nat): seq<nat> {
    seq(|starts|, x requires 0 <= x < |starts| =>
      if x == b then p else if starts[x] >= p then starts[x] + 1 else starts[x])
  }

  function StartsDown(starts: seq<nat>, i: nat): seq<nat> {
    seq(|starts|, x requires 0 <= x < |starts| => if starts[x] > i then starts[x] - 1 else starts[x])
  }

  lemma RunsInsert(ids: seq<nat>, starts: seq<nat>, counts: seq<nat>, b: nat)
    requires IsRuns(ids, starts, counts) && b < |counts|
    ensures var p := Spot(starts, counts, b);
            p <= |ids| && IsRuns(InsertAt(ids, p, b), StartsUp(starts, p, b), counts[b := counts[b] + 1])
  {
    var p := Spot(starts, counts, b);
    assert RunAt(ids, b, starts[b], counts[b]);
    var t, up, more := InsertAt(ids, p, b), StartsUp(starts, p, b), counts[b := counts[b] + 1];
    forall x | 0 <= x < |counts|
      ensures RunAt(t, x, up[x], more[x])
    {
      assert RunAt(ids, x, starts[x], counts[x]);
      assert counts[b] > 0 ==> ids[p] == b;
      forall k | 0 <= k < |t|
        ensures t[k] == x <==> up[x] <= k < up[x] + more[x]
      {
        assert t[k] == if k < p then ids[k] else if k == p then b else ids[k - 1];
      }
    }
  }

  lemma RunsRemove(ids: seq<nat>, starts: seq<nat>, counts: seq<nat>, i: nat)
    requires IsRuns(ids, starts, counts) && i < |ids|
    ensures counts[ids[i]] > 0
    ensures IsRuns(RemoveAt(ids, i), StartsDown(starts, i), counts[ids[i] := counts[ids[i]] - 1])
  {
    var b := ids[i];
    assert RunAt(ids, b, starts[b], counts[b]);
    var t, down, less := RemoveAt(ids, i), StartsDown(starts, i), counts[b := counts[b] - 1];
    forall x | 0 <= x < |counts|
      ensures RunAt(t, x, down[x], less[x])
    {
      assert RunAt(ids, x, starts[x], counts[x]);
      forall k | 0 <= k < |t|
        ensures t[k] == x <==> down[x] <= k < down[x] + less[x]
      {
        assert t[k] == if k < i then ids[k] else ids[k + 1];
      }
    }
  }
}
