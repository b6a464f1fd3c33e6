/** Lexicographic order on integer sequences: the order of index keys and of sample scores. */
module Lex {

  /** The length of the longest common prefix. */
  function FirstDiff(s: seq<int>, t: seq<int>): (d: nat)
    ensures d <= |s| && d <= |t|
    ensures s[..d] == t[..d]
    ensures d < |s| && d < |t| ==> s[d] != t[d]
  {
    if s == [] || t == [] || s[0] != t[0] then 0
    else
      var d := FirstDiff(s[1..], t[1..]);
      assert s[..d + 1] == [s[0]] + s[1..][..d];
      assert t[..d + 1] == [t[0]] + t[1..][..d];
      d + 1
  }

  predicate Less(s: seq<int>, t: seq<int>) {
    var d := FirstDiff(s, t);
    d < |t| && (d == |s| || s[d] < t[d])
  }

  /** A common prefix that the sequences leave differently is the longest one. */
  lemma FirstDiffUnique(s: seq<int>, t: seq<int>, d: nat)
    requires d <= |s| && d <= |t| && s[..d] == t[..d]
    requires d == |s| || d == |t| || s[d] != t[d]
    ensures FirstDiff(s, t) == d
  {
    var e := FirstDiff(s, t);
    assert forall i | 0 <= i < d :: s[i] == s[..d][i] == t[..d][i] == t[i];
    assert forall i | 0 <= i < e :: s[i] == s[..e][i] == t[..e][i] == t[i];
  }

  lemma LessAt(s: seq<int>, t: seq<int>, d: nat)
    requires d <= |s| && d < |t| && s[..d] == t[..d]
    requires d == |s| || s[d] < t[d]
    ensures Less(s, t)
  {
    FirstDiffUnique(s, t, d);
  }

  lemma Irreflexive(s: seq<int>)
    ensures !Less(s, s)
  {
    FirstDiffUnique(s, s, |s|);
  }

  lemma Transitive(s: seq<int>, t: seq<int>, u: seq<int>)
    requires Less(s, t) && Less(t, u)
    ensures Less(s, u)
  {
    var d, e := FirstDiff(s, t), FirstDiff(t, u);
    var m := if d < e then d else e;
    assert s[..m] == s[..d][..m] == t[..d][..m] == t[..m];
    assert t[..m] == t[..e][..m] == u[..e][..m] == u[..m];
    if d < e {
      assert t[d] == t[..e][d] == u[..e][d] == u[d];
    } else if e < d {
      assert s[e] == s[..d][e] == t[..d][e] == t[e];
    }
    LessAt(s, u, m);
  }

  lemma Asymmetric(s: seq<int>, t: seq<int>)
    requires Less(s, t)
    ensures !Less(t, s)
  {
    if Less(t, s) {
      Transitive(s, t, s);
      Irreflexive(s);
    }
  }

  lemma Total(s: seq<int>, t: seq<int>)
    ensures s == t || Less(s, t) || Less(t, s)
  {
    var d := FirstDiff(s, t);
    if d < |s| && d < |t| {
      if s[d] > t[d] { LessAt(t, s, d); }
    } else if d < |s| {
      LessAt(t, s, d);
    } else if d == |t| {
      assert s == s[..d] && t == t[..d];
    }
  }

  /** What comparing two keys says about comparing their leading columns. */
  lemma PrefixOrder(s: seq<int>, t: seq<int>, n: nat)
    requires Less(s, t) && |s| == |t| && n <= |s|
    ensures n <= FirstDiff(s, t) ==> s[..n] == t[..n]
    ensures FirstDiff(s, t) < n ==> Less(s[..n], t[..n])
  {
    var d := FirstDiff(s, t);
    if n <= d {
      assert s[..n] == s[..d][..n] && t[..n] == t[..d][..n];
    } else {
      assert s[..n][..d] == s[..d] && t[..n][..d] == t[..d];
      LessAt(s[..n], t[..n], d);
    }
  }
}
