/** Quoting and dequoting of names and strings. */
module AlterQuote {

  // ---- Quoting ----

  /** A text with every q written twice. */
  function Doubled(q: char, x: string): (r: string)
    ensures |x| <= |r| <= 2 * |x|
  {
    if x == [] then [] else (if x[0] == q then [q, q] else [x[0]]) + Doubled(q, x[1..])
  }

  function Quoted(q: char, x: string): string {
    [q] + Doubled(q, x) + [q]
  }

  predicate IsQuote(c: char) {
    c == '\'' || c == '"' || c == '`' || c == '['
  }

  /** What is quoted, from position i on; the text may end without a closing quote. */
  function Unquote(q: char, s: string, i: nat): string
    decreases |s| - i
  {
    if i >= |s| then []
    else if s[i] != q then [s[i]] + Unquote(q, s, i + 1)
    else if i + 1 < |s| && s[i + 1] == q then [q] + Unquote(q, s, i + 2)
    else []
  }

  function Dequoted(s: string): string {
    if s != [] && IsQuote(s[0]) then Unquote(if s[0] == '[' then ']' else s[0], s, 1) else s
  }

  lemma Regroup(before: string, first: string, d: string, last: string)
    requires first != []
    ensures before + (first + d) + last == (before + first) + d + last
    ensures (before + (first + d) + last)[|before|] == first[0]
    ensures |first| == 2 ==> (before + (first + d) + last)[|before| + 1] == first[1]
  {
  }

  /** What is read of a quoted text with something after it, which is at end. */
  lemma {:induction false} UnquoteBefore(q: char, before: string, x: string, rest: string, s: string, end: nat)
    requires s == before + Doubled(q, x) + ([q] + rest) && end == |before| + |Doubled(q, x)| + 1
    ensures Unquote(q, s, |before|) == x + if rest != [] && rest[0] == q then [q] + Unquote(q, s, end + 1) else []
    decreases |x|
  {
    if x != [] {
      var first := if x[0] == q then [q, q] else [x[0]];
      Regroup(before, first, Doubled(q, x[1..]), [q] + rest);
      UnquoteBefore(q, before + first, x[1..], rest, s, end);
      UnquoteOne(q, s, |before|, x[0]);
      assert x == [x[0]] + x[1..];
    } else {
      Ends(q, before, rest, s);
    }
  }

  lemma UnquoteOne(q: char, s: string, i: nat, c: char)
    requires i < |s| && s[i] == c && (c == q ==> i + 1 < |s| && s[i + 1] == q)
    ensures Unquote(q, s, i) == [c] + Unquote(q, s, if c == q then i + 2 else i + 1)
  {
  }

  lemma Ends(q: char, before: string, rest: string, s: string)
    requires s == before + [] + ([q] + rest)
    ensures |s| == |before| + 1 + |rest| && s[|before|] == q && (rest != [] ==> s[|before| + 1] == rest[0])
  {
  }

  /** A quoted text is read as what was quoted exactly if no quote comes right after it. */
  lemma QuotedThen(q: char, x: string, rest: string)
    requires IsQuote(q) && q != '['
    ensures Dequoted(Quoted(q, x) + rest) == x <==> rest == [] || rest[0] != q
  {
    assert Quoted(q, x) + rest == [q] + Doubled(q, x) + ([q] + rest);
    UnquoteBefore(q, [q], x, rest, Quoted(q, x) + rest, 2 + |Doubled(q, x)|);
  }

  /** Dequoting undoes quoting. */
  lemma DequotedQuoted(q: char, x: string)
    requires IsQuote(q) && q != '['
    ensures Dequoted(Quoted(q, x)) == x
  {
    assert Quoted(q, x) + [] == Quoted(q, x);
    QuotedThen(q, x, []);
  }

  lemma UnquoteStep(q: char, s: string, i: nat, done: string)
    requires i < |s| && (s[i] == q ==> i + 1 < |s| && s[i + 1] == q)
    ensures done + Unquote(q, s, i) == (done + [s[i]]) + Unquote(q, s, if s[i] == q then i + 2 else i + 1)
  {
  }

  /** In place, as the source does it. */
  method Dequote(z: array<char>, n: nat) returns (m: nat)
    requires n < z.Length && z[n] == '\0' && (forall i :: 0 <= i < n ==> z[i] != '\0')
    modifies z
    ensures m <= n && z[..m] == Dequoted(old(z[..n])) && z[m] == '\0'
  {
    ghost var s := z[..n];
    if n == 0 || !IsQuote(z[0]) { return n; }
    var quote := if z[0] == '[' then ']' else z[0];
    var i, j := 1, 0;
    while z[i] != '\0' && (z[i] != quote || z[i + 1] == quote)
      invariant j < i <= n && z[n] == '\0' && forall p :: i <= p < n ==> z[p] == s[p]
      invariant z[..j] + Unquote(quote, s, i) == Unquote(quote, s, 1)
      decreases n - i
    {
      ghost var done := z[..j];
      UnquoteStep(quote, s, i, done);
      if z[i] == quote { i := i + 1; }
      z[j] := z[i];
      assert z[..j + 1] == done + [z[j]];
      j, i := j + 1, i + 1;
    }
    z[j] := '\0';
    m := j;
  }
}
