/** Editing the text of a statement: every token of a list is replaced in one buffer, the rightmost one first. */
module AlterEdit {
  import opened AlterQuote

  /** A token: where it starts in the statement, and its length. */
  datatype Token = Token(z: nat, n: nat)

  /** Rename the tokens to zNew, or write them in single quotes instead of double quotes. */
  datatype Mode = Rename(zNew: string, bQuote: bool) | FixQuotes

  predicate IsIdChar(c: char) {
    'a' <= c <= 'z' || 'A' <= c <= 'Z' || '0' <= c <= '9' || c == '_' || c == '$' || c >= 128 as char
  }

  predicate NoNul(s: string) {
    '\0' !in s
  }

  predicate Inside(sql: string, t: Token) {
    1 <= t.n && t.z + t.n <= |sql|
  }

  predicate Apart(t: Token, u: Token) {
    t.z + t.n <= u.z || u.z + u.n <= t.z
  }

  /** Tokens of a statement, in any order, that do not overlap. */
  predicate AreTokens(sql: string, list: seq<Token>) {
    && (forall i {:trigger list[i]} :: 0 <= i < |list| ==> Inside(sql, list[i]))
    && (forall i, j {:trigger list[i], list[j]} :: 0 <= i < |list| && 0 <= j < |list| && i != j ==>
        Apart(list[i], list[j]))
  }

  function Text(sql: string, t: Token): string
    requires Inside(sql, t)
  {
    sql[t.z..t.z + t.n]
  }

  /** The character after a token, or the one that ends the statement. */
  function Following(sql: string, t: Token): char
    requires Inside(sql, t)
  {
    if t.z + t.n < |sql| then sql[t.z + t.n] else '\0'
  }

  /** A name or string in double quotes. */
  predicate IsDoubleQuoted(s: string) {
    s == Quoted('"', Dequoted(s))
  }

  predicate Editable(sql: string, list: seq<Token>, mode: Mode) {
    && AreTokens(sql, list) && NoNul(sql) && sql != []
    && (mode.Rename? ==> NoNul(mode.zNew))
    && (mode.FixQuotes? ==> forall i {:trigger list[i]} :: 0 <= i < |list| ==> IsDoubleQuoted(Text(sql, list[i])))
  }

  /** The replacement of a token; a space keeps it apart from a quote that follows. */
  function Replacement(sql: string, mode: Mode, t: Token): string {
    if !Inside(sql, t) then [] else
    match mode
    case Rename(zNew, bQuote) =>
      if !bQuote && IsIdChar(sql[t.z]) then zNew
      else Quoted('"', zNew) + if Following(sql, t) == '"' then " " else ""
    case FixQuotes =>
      Quoted('\'', Dequoted(Text(sql, t))) + if Following(sql, t) == '\'' then " " else ""
  }

  function Replacer(sql: string, mode: Mode): Token -> string {
    t => Replacement(sql, mode, t)
  }

  /** The number of the token that starts at i, or that of no token. */
  function TokenAt(list: seq<Token>, i: nat): (k: nat)
    ensures k <= |list| && (k < |list| ==> list[k].z == i)
    ensures k == |list| ==> forall t :: t in list ==> t.z != i
  {
    if list == [] then 0 else if list[0].z == i then 0 else TokenAt(list[1..], i) + 1
  }

  /** The one pass from left to right: from position i on, tokens are replaced and everything else is copied. */
  function OnePass(sql: string, list: seq<Token>, repl: Token -> string, i: nat): string
    requires AreTokens(sql, list) && i <= |sql|
    decreases |sql| - i
  {
    var k := TokenAt(list, i);
    if i == |sql| then []
    else if k < |list| then
      assert Inside(sql, list[k]);
      repl(list[k]) + OnePass(sql, list, repl, i + list[k].n)
    else [sql[i]] + OnePass(sql, list, repl, i + 1)
  }

  lemma OneStart(sql: string, list: seq<Token>, a: nat, b: nat)
    requires AreTokens(sql, list) && a < |list| && b < |list| && list[a].z == list[b].z
    ensures a == b
  {
    assert Inside(sql, list[a]) && Inside(sql, list[b]);
  }

  lemma TokenStep(sql: string, list: seq<Token>, repl: Token -> string, i: nat, k: nat)
    requires AreTokens(sql, list) && i <= |sql| && k == TokenAt(list, i) < |list|
    ensures Inside(sql, list[k])
    ensures OnePass(sql, list, repl, i) == repl(list[k]) + OnePass(sql, list, repl, i + list[k].n)
  {
    assert Inside(sql, list[k]);
  }

  lemma CharStep(sql: string, list: seq<Token>, repl: Token -> string, i: nat)
    requires AreTokens(sql, list) && i < |sql| && TokenAt(list, i) == |list|
    ensures OnePass(sql, list, repl, i) == [sql[i]] + OnePass(sql, list, repl, i + 1)
  {
  }

  /** At a token. */
  lemma AtToken(sql: string, list: seq<Token>, repl: Token -> string, t: Token)
    requires AreTokens(sql, list) && t in list
    ensures Inside(sql, t) && OnePass(sql, list, repl, t.z) == repl(t) + OnePass(sql, list, repl, t.z + t.n)
  {
    var a :| 0 <= a < |list| && list[a] == t;
    assert Inside(sql, list[a]);
    var k := TokenAt(list, t.z);
    OneStart(sql, list, a, k);
    TokenStep(sql, list, repl, t.z, k);
  }

  // ---- What a replacement means ----

  /** The token is written as it is: it starts like an identifier, and the new name was not quoted either. */
  predicate IsBare(sql: string, mode: Mode, t: Token) {
    mode.Rename? && !mode.bQuote && Inside(sql, t) && IsIdChar(sql[t.z])
  }

  /** The quote of a replacement that is not bare, and what it is to mean. */
  function QuoteOf(mode: Mode): char {
    if mode.Rename? then '"' else '\''
  }

  function Meaning(sql: string, mode: Mode, t: Token): string
    requires Inside(sql, t)
  {
    if mode.Rename? then mode.zNew else Dequoted(Text(sql, t))
  }

  /**
   A bare token becomes the new name. Any other is put in quotes and, with whatever comes after it, means the new name,
   or what the token meant before: unless a quote comes right after it that did not before.
   */
  lemma ReplacementMeans(sql: string, mode: Mode, t: Token, rest: string)
    requires Inside(sql, t)
    ensures IsBare(sql, mode, t) ==> Replacement(sql, mode, t) == mode.zNew
    ensures !IsBare(sql, mode, t) ==>
              var q, r := QuoteOf(mode), Replacement(sql, mode, t);
              && r != [] && r[0] == q
              && (Dequoted(r + rest) == Meaning(sql, mode, t) <==>
                  Following(sql, t) == q || rest == [] || rest[0] != q)
  {
    if !IsBare(sql, mode, t) {
      var q, x := QuoteOf(mode), Meaning(sql, mode, t);
      if Following(sql, t) == q {
        assert Quoted(q, x) + " " + rest == Quoted(q, x) + (" " + rest);
        QuotedThen(q, x, " " + rest);
      } else {
        assert Quoted(q, x) + "" == Quoted(q, x);
        QuotedThen(q, x, rest);
      }
    }
  }

  /** In the edited text, a quoted token means what it is to mean, if no other token comes right after it. */
  lemma TokenMeans(sql: string, list: seq<Token>, mode: Mode, t: Token)
    requires AreTokens(sql, list) && NoNul(sql) && t in list && !IsBare(sql, mode, t)
    requires TokenAt(list, t.z + t.n) == |list|
    ensures Inside(sql, t) && Dequoted(OnePass(sql, list, Replacer(sql, mode), t.z)) == Meaning(sql, mode, t)
  {
    AtToken(sql, list, Replacer(sql, mode), t);
    NextChar(sql, list, Replacer(sql, mode), t);
    ReplacementMeans(sql, mode, t, OnePass(sql, list, Replacer(sql, mode), t.z + t.n));
  }

  /** Where no token follows, the character after a token is kept. */
  lemma NextChar(sql: string, list: seq<Token>, repl: Token -> string, t: Token)
    requires AreTokens(sql, list) && Inside(sql, t) && TokenAt(list, t.z + t.n) == |list|
    ensures var rest := OnePass(sql, list, repl, t.z + t.n); rest == [] || rest[0] == Following(sql, t)
  {
    if t.z + t.n < |sql| { CharStep(sql, list, repl, t.z + t.n); }
  }

  /** Of two quoted tokens without anything between them, the first does not mean the new name any more. */
  lemma Adjacent(sql: string, list: seq<Token>, mode: Mode, t: Token, u: Token)
    requires AreTokens(sql, list) && t in list && u in list && u.z == t.z + t.n
    requires !IsBare(sql, mode, t) && !IsBare(sql, mode, u) && Following(sql, t) != QuoteOf(mode)
    ensures Inside(sql, t) && Dequoted(OnePass(sql, list, Replacer(sql, mode), t.z)) != Meaning(sql, mode, t)
  {
    AtToken(sql, list, Replacer(sql, mode), t);
    AtToken(sql, list, Replacer(sql, mode), u);
    var rest := OnePass(sql, list, Replacer(sql, mode), u.z);
    StartsQuoted(sql, mode, u, OnePass(sql, list, Replacer(sql, mode), u.z + u.n), rest);
    ReplacementMeans(sql, mode, t, rest);
  }

  lemma StartsQuoted(sql: string, mode: Mode, u: Token, more: string, rest: string)
    requires Inside(sql, u) && !IsBare(sql, mode, u) && rest == Replacement(sql, mode, u) + more
    ensures rest != [] && rest[0] == QuoteOf(mode)
  {
  }

  /** Between tokens everything is copied. */
  lemma {:induction false} Copied(sql: string, list: seq<Token>, repl: Token -> string, i: nat, k: nat)
    requires AreTokens(sql, list) && i <= k <= |sql|
    requires forall t :: t in list ==> t.z < i || k <= t.z
    ensures OnePass(sql, list, repl, i) == sql[i..k] + OnePass(sql, list, repl, k)
    decreases k - i
  {
    if i < k {
      CharStep(sql, list, repl, i);
      Copied(sql, list, repl, i + 1, k);
      assert sql[i..k] == [sql[i]] + sql[i + 1..k];
    }
  }

  /** What replacing the rightmost of the tokens before k does to a text that is finished from k on. */
  lemma Replaced(sql: string, list: seq<Token>, repl: Token -> string, t: Token, k: nat, out: string)
    requires AreTokens(sql, list) && t in list && Inside(sql, t) && t.z + t.n <= k <= |sql|
    requires forall u :: u in list ==> u.z <= t.z || k <= u.z
    requires out == sql[..k] + OnePass(sql, list, repl, k)
    ensures out[..t.z] + repl(t) + out[t.z + t.n..] == sql[..t.z] + OnePass(sql, list, repl, t.z)
  {
    AtToken(sql, list, repl, t);
    Copied(sql, list, repl, t.z + t.n, k);
    Spliced(sql, k, OnePass(sql, list, repl, k), out, t.z, t.z + t.n, repl(t));
  }

  lemma Spliced(sql: string, k: nat, rest: string, out: string, i: nat, j: nat, r: string)
    requires i <= j <= k <= |sql| && out == sql[..k] + rest
    ensures out[..i] + r + out[j..] == sql[..i] + (r + (sql[j..k] + rest))
  {
    assert out[..i] == sql[..i];
    assert out[j..] == sql[j..k] + rest;
  }

  // ---- Room in the buffer ----

  /** The longest that a statement can become while r of its tokens, all before k, are still to be replaced. */
  predicate HasRoom(mode: Mode, nSql: nat, total: nat, r: nat, k: nat, nOut: nat) {
    match mode
    case Rename(zNew, _) => nOut + r * |Quoted('"', zNew)| <= nSql + total * |Quoted('"', zNew)|
    case FixQuotes => nOut + k <= 2 * nSql
  }

  function BufferSize(mode: Mode, nSql: nat, total: nat): nat {
    match mode
    case Rename(zNew, _) => nSql + total * |Quoted('"', zNew)| + 1
    case FixQuotes => 2 * nSql + 1
  }

  /** A replacement of a quoted token is less than twice as long. */
  lemma FixGrows(sql: string, t: Token)
    requires Inside(sql, t) && IsDoubleQuoted(Text(sql, t))
    ensures |Replacement(sql, FixQuotes, t)| < 2 * t.n
  {
    var x := Dequoted(Text(sql, t));
    assert t.n == 2 + |Doubled('"', x)|;
  }

  lemma RenameGrows(sql: string, zNew: string, bQuote: bool, t: Token)
    requires Inside(sql, t)
    ensures |Replacement(sql, Rename(zNew, bQuote), t)| <= |Quoted('"', zNew)| + 1
  {
  }

  /** Replacing a token leaves room for those before it. */
  lemma StillRoom(sql: string, mode: Mode, total: nat, r: nat, k: nat, nOut: nat, t: Token)
    requires Inside(sql, t) && t.z + t.n <= k && r > 0 && HasRoom(mode, |sql|, total, r, k, nOut) && t.n <= nOut
    requires mode.FixQuotes? ==> IsDoubleQuoted(Text(sql, t))
    ensures HasRoom(mode, |sql|, total, r - 1, t.z, nOut - t.n + |Replacement(sql, mode, t)|)
  {
    match mode
    case Rename(zNew, bQuote) =>
      RenameGrows(sql, zNew, bQuote, t);
      var q := |Quoted('"', zNew)|;
      assert r * q == (r - 1) * q + q;
    case FixQuotes => FixGrows(sql, t);
  }

  lemma RoomFits(mode: Mode, nSql: nat, total: nat, r: nat, k: nat, nOut: nat)
    requires HasRoom(mode, nSql, total, r, k, nOut)
    ensures nOut < BufferSize(mode, nSql, total)
  {
    if mode.Rename? { assert r * |Quoted('"', mode.zNew)| >= 0; }
  }

  // ---- The buffer ----

  method MemMove(z: array<char>, dst: nat, src: nat, len: nat)
    requires dst + len <= z.Length && src + len <= z.Length
    modifies z
    ensures forall i :: 0 <= i < z.Length ==> z[i] == if dst <= i < dst + len then old(z[i - dst + src]) else old(z[i])
  {
    forall i | 0 <= i < len { z[dst + i] := z[src + i]; }
  }

  method MemCpy(z: array<char>, dst: nat, s: string)
    requires dst + |s| <= z.Length
    modifies z
    ensures forall i :: 0 <= i < z.Length ==> z[i] == if dst <= i < dst + |s| then s[i - dst] else old(z[i])
  {
    forall i | 0 <= i < |s| { z[dst + i] := s[i]; }
  }

  /** Replaces n characters at iOff of the text in the buffer, which is nOut characters long. */
  method Substitute(zOut: array<char>, nOut0: nat, iOff: nat, n: nat, zReplace: string) returns (nOut: nat)
    requires nOut0 < zOut.Length && zOut[nOut0] == '\0' && iOff + n <= nOut0 && nOut0 - n + |zReplace| < zOut.Length
    modifies zOut
    ensures nOut == nOut0 - n + |zReplace| && zOut[nOut] == '\0'
    ensures zOut[..nOut] == old(zOut[..iOff]) + zReplace + old(zOut[iOff + n..nOut0])
  {
    nOut := nOut0;
    var nReplace := |zReplace|;
    if n != nReplace {
      MemMove(zOut, iOff + nReplace, iOff + n, nOut - (iOff + n));
      nOut := nOut - n + nReplace;
      zOut[nOut] := '\0';
    }
    MemCpy(zOut, iOff, zReplace);
  }

  /** The text in a buffer, up to the character that ends it. */
  method TextOf(z: array<char>, ghost n: nat) returns (s: string)
    requires n < z.Length && z[n] == '\0' && NoNul(z[..n])
    ensures s == z[..n]
  {
    assert forall j :: 0 <= j < n ==> z[j] == z[..n][j] && z[..n][j] in z[..n];
    var i := 0;
    while z[i] != '\0'
      invariant i <= n
      decreases n - i
    {
      i := i + 1;
    }
    s := z[..i];
  }

  // ---- The tokens ----

  class RenameCtx {
    var pList: seq<Token>
    var nList: nat

    /** Takes the rightmost token off the list. */
    method ColumnTokenNext() returns (pBest: Token, ghost at: nat)
      requires pList != []
      modifies this`pList
      ensures at < |old(pList)| && pBest == old(pList)[at] && pList == old(pList)[..at] + old(pList)[at + 1..]
      ensures forall t :: t in old(pList) ==> t.z <= pBest.z
    {
      var best, i := 0, 1;
      while i < |pList|
        invariant best < i <= |pList|
        invariant forall j :: 0 <= j < i ==> pList[j].z <= pList[best].z
      {
        if pList[i].z > pList[best].z { best := i; }
        i := i + 1;
      }
      pBest, at := pList[best], best;
      pList := pList[..best] + pList[best + 1..];
    }
  }

  /** What is left of a list of tokens when those from k on are done. */
  predicate Left(sql: string, all: seq<Token>, list: seq<Token>, k: nat) {
    && AreTokens(sql, list)
    && (forall t {:trigger t in list} :: t in list ==> t in all && t.z + t.n <= k)
    && (forall t {:trigger t in all} :: t in all ==> t in list || k <= t.z)
  }

  lemma TakenOff(sql: string, all: seq<Token>, list: seq<Token>, k: nat, at: nat)
    requires Left(sql, all, list, k) && at < |list| && forall t :: t in list ==> t.z <= list[at].z
    ensures Left(sql, all, list[..at] + list[at + 1..], list[at].z)
    ensures Inside(sql, list[at]) && list[at] in all && list[at].z + list[at].n <= k
    ensures forall u :: u in all ==> u.z <= list[at].z || k <= u.z
  {
    var rest, best := list[..at] + list[at + 1..], list[at];
    assert best in list;
    forall i | 0 <= i < |rest|
      ensures rest[i] in list && rest[i].z + rest[i].n <= best.z && Inside(sql, rest[i])
    {
      var j := if i < at then i else i + 1;
      assert rest[i] == list[j] && Apart(list[j], list[at]) && Inside(sql, list[j]);
    }
    forall i, j | 0 <= i < |rest| && 0 <= j < |rest| && i != j
      ensures Apart(rest[i], rest[j])
    {
      assert Apart(list[if i < at then i else i + 1], list[if j < at then j else j + 1]);
    }
    forall t | t in all
      ensures t in rest || best.z <= t.z
    {
      if t in list && t != best {
        var j :| 0 <= j < |list| && list[j] == t;
        assert t == rest[if j < at then j else j - 1];
      }
    }
  }

  // ---- No character that ends a text early ----

  lemma {:induction false} DoubledNoNul(q: char, x: string)
    requires q != '\0' && NoNul(x)
    ensures NoNul(Doubled(q, x))
  {
    if x != [] { DoubledNoNul(q, x[1..]); }
  }

  lemma {:induction false} UnquoteNoNul(q: char, s: string, i: nat)
    requires NoNul(s) && q != '\0'
    ensures NoNul(Unquote(q, s, i))
    decreases |s| - i
  {
    if i < |s| {
      UnquoteNoNul(q, s, i + 1);
      UnquoteNoNul(q, s, i + 2);
    }
  }

  lemma ReplacementNoNul(sql: string, mode: Mode, t: Token)
    requires NoNul(sql) && (mode.Rename? ==> NoNul(mode.zNew))
    ensures NoNul(Replacement(sql, mode, t))
  {
    if !Inside(sql, t) { return; }
    match mode
    case Rename(zNew, _) => DoubledNoNul('"', zNew);
    case FixQuotes =>
      var text := Text(sql, t);
      UnquoteNoNul(if text[0] == '[' then ']' else text[0], text, 1);
      DoubledNoNul('\'', Dequoted(text));
  }

  lemma ReplacerNoNul(sql: string, mode: Mode)
    requires NoNul(sql) && (mode.Rename? ==> NoNul(mode.zNew))
    ensures forall t :: NoNul(Replacer(sql, mode)(t))
  {
    forall t
      ensures NoNul(Replacer(sql, mode)(t))
    {
      ReplacementNoNul(sql, mode, t);
    }
  }

  lemma Joined(a: string, b: string)
    requires NoNul(a) && NoNul(b)
    ensures NoNul(a + b)
  {
  }

  lemma {:induction false} OnePassNoNul(sql: string, list: seq<Token>, repl: Token -> string, i: nat)
    requires AreTokens(sql, list) && i <= |sql| && NoNul(sql) && forall t :: NoNul(repl(t))
    ensures NoNul(OnePass(sql, list, repl, i))
    decreases |sql| - i
  {
    var k := TokenAt(list, i);
    if i < |sql| {
      if k < |list| {
        assert Inside(sql, list[k]);
        TokenStep(sql, list, repl, i, k);
        OnePassNoNul(sql, list, repl, i + list[k].n);
        Joined(repl(list[k]), OnePass(sql, list, repl, i + list[k].n));
      } else {
        CharStep(sql, list, repl, i);
        OnePassNoNul(sql, list, repl, i + 1);
        Joined([sql[i]], OnePass(sql, list, repl, i + 1));
      }
    }
  }

  // ---- The edit ----

  /** The token with its double quotes turned into single quotes, by way of two buffers. */
  method Requote(zSql: string, t: Token) returns (zReplace: string)
    requires Inside(zSql, t) && NoNul(zSql) && IsDoubleQuoted(Text(zSql, t))
    ensures zReplace == Replacement(zSql, FixQuotes, t)
  {
    var zBuf1 := new char[2 * |zSql| + 1](_ => '\0');
    MemCpy(zBuf1, 0, Text(zSql, t));
    zBuf1[t.n] := '\0';
    assert zBuf1[..t.n] == Text(zSql, t);
    var m := Dequote(zBuf1, t.n);
    var text := Quoted('\'', zBuf1[..m]) + if Following(zSql, t) == '\'' then " " else "";
    FixGrows(zSql, t);
    zReplace := PrintInto(2 * |zSql|, text);
  }

  /** What snprintf leaves in a buffer of limit bytes. */
  method PrintInto(limit: nat, text: string) returns (s: string)
    requires limit > 0
    ensures |text| < limit ==> s == text
  {
    s := if |text| < limit then text else text[..limit - 1];
  }

  method ReplacementFor(zSql: string, mode: Mode, t: Token) returns (zReplace: string)
    requires Inside(zSql, t) && NoNul(zSql) && (mode.FixQuotes? ==> IsDoubleQuoted(Text(zSql, t)))
    ensures zReplace == Replacement(zSql, mode, t)
  {
    match mode
    case Rename(zNew, bQuote) =>
      var zQuot := Quoted('"', zNew) + " ";
      var nQuot := |zQuot| - 1;
      if !bQuote && IsIdChar(zSql[t.z]) {
        zReplace := zNew;
      } else {
        var nReplace := if Following(zSql, t) == '"' then nQuot + 1 else nQuot;
        zReplace := zQuot[..nReplace];
      }
    case FixQuotes => zReplace := Requote(zSql, t);
  }

  /** Editing from right to left in one buffer gives the one pass from left to right, and never leaves the buffer. */
  method RenameEditSql(pRename: RenameCtx, zSql: string, mode: Mode) returns (zResult: string)
    requires Editable(zSql, pRename.pList, mode) && pRename.nList == |pRename.pList|
    modifies pRename`pList
    ensures zResult == OnePass(zSql, old(pRename.pList), Replacer(zSql, mode), 0) && pRename.pList == []
  {
    ghost var all := pRename.pList;
    var nSql := |zSql|;
    var zOut := new char[BufferSize(mode, nSql, pRename.nList)](_ => '\0');
    RoomFits(mode, nSql, pRename.nList, pRename.nList, nSql, nSql);
    MemCpy(zOut, 0, zSql);
    var nOut: nat := nSql;
    ghost var k: nat := nSql;
    assert forall t :: t in all ==> Inside(zSql, t);
    while pRename.pList != []
      invariant k <= nSql && Left(zSql, all, pRename.pList, k)
      invariant Edited(zSql, all, Replacer(zSql, mode), k, zOut, nOut) && pRename.nList == |all|
      invariant zOut.Length == BufferSize(mode, nSql, |all|)
      invariant HasRoom(mode, nSql, |all|, |pRename.pList|, k, nOut)
      decreases |pRename.pList|
    {
      nOut, k := EditOne(pRename, zSql, mode, all, k, zOut, nOut);
    }
    Copied(zSql, all, Replacer(zSql, mode), 0, k);
    ReplacerNoNul(zSql, mode);
    OnePassNoNul(zSql, all, Replacer(zSql, mode), 0);
    zResult := TextOf(zOut, nOut);
  }

  /** The buffer holds the statement, edited from k on. */
  ghost predicate Edited(sql: string, all: seq<Token>, repl: Token -> string, k: nat, zOut: array<char>, nOut: nat)
    reads zOut
  {
    && AreTokens(sql, all) && k <= |sql| && nOut < zOut.Length && zOut[nOut] == '\0'
    && zOut[..nOut] == sql[..k] + OnePass(sql, all, repl, k)
  }

  method EditOne(pRename: RenameCtx, zSql: string, mode: Mode, ghost all: seq<Token>, ghost k: nat, zOut: array<char>,
                 nOut0: nat)
    returns (nOut: nat, ghost k': nat)
    requires pRename.pList != [] && k <= |zSql| && Left(zSql, all, pRename.pList, k) && Editable(zSql, all, mode)
    requires zOut.Length == BufferSize(mode, |zSql|, |all|)
    requires Edited(zSql, all, Replacer(zSql, mode), k, zOut, nOut0)
    requires HasRoom(mode, |zSql|, |all|, |pRename.pList|, k, nOut0)
    modifies pRename`pList, zOut
    ensures k' <= |zSql| && Left(zSql, all, pRename.pList, k') && |pRename.pList| == |old(pRename.pList)| - 1
    ensures Edited(zSql, all, Replacer(zSql, mode), k', zOut, nOut)
    ensures HasRoom(mode, |zSql|, |all|, |pRename.pList|, k', nOut)
  {
    ghost var list := pRename.pList;
    var pBest, at := pRename.ColumnTokenNext();
    TakenOff(zSql, all, list, k, at);
    nOut := ReplaceToken(zSql, mode, all, k, zOut, nOut0, pBest, |list|);
    k' := pBest.z;
  }

  method ReplaceToken(zSql: string, mode: Mode, ghost all: seq<Token>, ghost k: nat, zOut: array<char>, nOut0: nat,
                      t: Token, ghost r: nat)
    returns (nOut: nat)
    requires Editable(zSql, all, mode) && t in all && t.z + t.n <= k <= |zSql|
    requires forall u :: u in all ==> u.z <= t.z || k <= u.z
    requires zOut.Length == BufferSize(mode, |zSql|, |all|)
    requires Edited(zSql, all, Replacer(zSql, mode), k, zOut, nOut0) && r > 0
    requires HasRoom(mode, |zSql|, |all|, r, k, nOut0)
    modifies zOut
    ensures Edited(zSql, all, Replacer(zSql, mode), t.z, zOut, nOut) && HasRoom(mode, |zSql|, |all|, r - 1, t.z, nOut)
  {
    QuotedToken(zSql, all, mode, t);
    Longer(zSql[..k], OnePass(zSql, all, Replacer(zSql, mode), k), zOut[..nOut0]);
    StillRoom(zSql, mode, |all|, r, k, nOut0, t);
    RoomFits(mode, |zSql|, |all|, r - 1, t.z, nOut0 - t.n + |Replacement(zSql, mode, t)|);
    var zReplace := ReplacementFor(zSql, mode, t);
    nOut := Splice(zSql, all, Replacer(zSql, mode), k, zOut, nOut0, t, zReplace);
  }

  method Splice(ghost zSql: string, ghost all: seq<Token>, ghost repl: Token -> string, ghost k: nat,
                zOut: array<char>, nOut0: nat, t: Token, zReplace: string)
    returns (nOut: nat)
    requires Edited(zSql, all, repl, k, zOut, nOut0) && zReplace == repl(t) && t in all && Inside(zSql, t)
    requires t.z + t.n <= k
    requires t.n <= nOut0 && nOut0 - t.n + |zReplace| < zOut.Length && k <= nOut0
    requires forall u :: u in all ==> u.z <= t.z || k <= u.z
    modifies zOut
    ensures Edited(zSql, all, repl, t.z, zOut, nOut) && nOut == nOut0 - t.n + |zReplace|
  {
    ghost var out := zOut[..nOut0];
    Replaced(zSql, all, repl, t, k, out);
    nOut := Substitute(zOut, nOut0, t.z, t.n, zReplace);
    assert old(zOut[..t.z]) == out[..t.z] && old(zOut[t.z + t.n..nOut0]) == out[t.z + t.n..];
  }

  lemma Longer(sqlPrefix: string, rest: string, out: string)
    requires out == sqlPrefix + rest
    ensures |sqlPrefix| <= |out|
  {
  }

  lemma QuotedToken(sql: string, all: seq<Token>, mode: Mode, t: Token)
    requires Editable(sql, all, mode) && t in all
    ensures Inside(sql, t) && (mode.FixQuotes? ==> IsDoubleQuoted(Text(sql, t)))
  {
    var i :| 0 <= i < |all| && all[i] == t;
  }
}
