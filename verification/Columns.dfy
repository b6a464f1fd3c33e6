/** Column numbers in a CREATE TABLE statement and in the record on disk, where virtual columns are left out. */
module Columns {

  /** For each column, whether it is virtual; and the number of those that are not. */
  datatype Table = Table(virtual: seq<bool>, nNVCol: nat, hasVirtual: bool)

  /** The stored columns among the first n. */
  function Stored(v: seq<bool>, n: nat): (c: nat)
    requires n <= |v|
    ensures c <= n
  {
    if n == 0 then 0 else Stored(v, n - 1) + if v[n - 1] then 0 else 1
  }

  predicate IsTable(t: Table) {
    && t.nNVCol == Stored(t.virtual, |t.virtual|)
    && (!t.hasVirtual ==> forall i :: 0 <= i < |t.virtual| ==> !t.virtual[i])
  }

  /** Where a column is stored: the stored columns come first, and then the virtual ones. */
  function ToStorage(t: Table, i: nat): int
    requires i < |t.virtual|
  {
    if t.virtual[i] then t.nNVCol + i - Stored(t.virtual, i) else Stored(t.virtual, i)
  }

  lemma {:induction false} StoredMono(v: seq<bool>, i: nat, j: nat)
    requires i <= j <= |v|
    ensures Stored(v, i) <= Stored(v, j) <= Stored(v, i) + (j - i)
    decreases j - i
  {
    if i < j { StoredMono(v, i, j - 1); }
  }

  lemma {:induction false} AllStored(v: seq<bool>, n: nat)
    requires n <= |v| && forall i :: 0 <= i < n ==> !v[i]
    ensures Stored(v, n) == n
  {
    if n > 0 { AllStored(v, n - 1); }
  }

  /** Stored columns are numbered below nNVCol and virtual ones from there on, both below the number of columns. */
  lemma InRange(t: Table, i: nat)
    requires IsTable(t) && i < |t.virtual|
    ensures if t.virtual[i] then t.nNVCol <= ToStorage(t, i) < |t.virtual| else 0 <= ToStorage(t, i) < t.nNVCol
  {
    StoredMono(t.virtual, i + 1, |t.virtual|);
  }

  /** Among the stored columns, and among the virtual ones, the order is kept. */
  lemma KeepsOrder(t: Table, i: nat, j: nat)
    requires IsTable(t) && i < j < |t.virtual| && t.virtual[i] == t.virtual[j]
    ensures ToStorage(t, i) < ToStorage(t, j)
  {
    StoredMono(t.virtual, i + 1, j);
  }

  /** No two columns have the same place. */
  lemma Injective(t: Table, i: nat, j: nat)
    requires IsTable(t) && i < |t.virtual| && j < |t.virtual| && ToStorage(t, i) == ToStorage(t, j)
    ensures i == j
  {
    InRange(t, i);
    InRange(t, j);
    if i < j { KeepsOrder(t, i, j); }
    if j < i { KeepsOrder(t, j, i); }
  }

  /** Every place has a column, so the numbers from 0 to nCol-1 are permuted. */
  lemma Onto(t: Table, k: nat) returns (i: nat)
    requires IsTable(t) && k < |t.virtual|
    ensures i < |t.virtual| && ToStorage(t, i) == k
  {
    if k < t.nNVCol {
      i := NthStored(t.virtual, |t.virtual|, k);
    } else {
      i := NthVirtual(t.virtual, |t.virtual|, k - t.nNVCol);
    }
  }

  lemma {:induction false} NthStored(v: seq<bool>, n: nat, k: nat) returns (i: nat)
    requires n <= |v| && k < Stored(v, n)
    ensures i < n && !v[i] && Stored(v, i) == k
  {
    if !v[n - 1] && Stored(v, n - 1) == k {
      i := n - 1;
    } else {
      i := NthStored(v, n - 1, k);
    }
  }

  lemma {:induction false} NthVirtual(v: seq<bool>, n: nat, k: nat) returns (i: nat)
    requires n <= |v| && k < n - Stored(v, n)
    ensures i < n && v[i] && i - Stored(v, i) == k
  {
    if v[n - 1] && n - 1 - Stored(v, n - 1) == k {
      i := n - 1;
    } else {
      i := NthVirtual(v, n - 1, k);
    }
  }

  /** The column numbers of a table; a negative one is the row id. */
  method TableColumnToStorage(t: Table, iCol: int) returns (r: int)
    requires IsTable(t) && iCol < |t.virtual|
    ensures r == if iCol < 0 then iCol else ToStorage(t, iCol)
  {
    if !t.hasVirtual || iCol < 0 {
      if iCol >= 0 { AllStored(t.virtual, iCol); }
      return iCol;
    }
    var i, n := 0, 0;
    while i < iCol
      invariant 0 <= i <= iCol && n == Stored(t.virtual, i)
    {
      if !t.virtual[i] { n := n + 1; }
      i := i + 1;
    }
    return if t.virtual[i] then t.nNVCol + i - n else n;
  }

  /** The inverse, on stored columns: no column beyond the last is looked at. */
  method StorageColumnToTable(t: Table, iCol: int) returns (r: int)
    requires IsTable(t) && iCol < t.nNVCol
    ensures iCol < 0 ==> r == iCol
    ensures iCol >= 0 ==> 0 <= r < |t.virtual| && !t.virtual[r] && ToStorage(t, r) == iCol
  {
    r := iCol;
    StoredMono(t.virtual, 0, |t.virtual|);
    if t.hasVirtual {
      var i := 0;
      while i <= r
        invariant 0 <= i && (iCol < 0 ==> r == iCol && i == 0)
        invariant iCol >= 0 ==> i <= r + 1 && i <= |t.virtual| && r == iCol + i - Stored(t.virtual, i) < |t.virtual|
        invariant iCol >= 0 && i == r + 1 ==> !t.virtual[r]
        decreases |t.virtual| - i
      {
        StoredMono(t.virtual, i + 1, |t.virtual|);
        if t.virtual[i] { r := r + 1; }
        i := i + 1;
      }
    } else if iCol >= 0 {
      AllStored(t.virtual, iCol);
      AllStored(t.virtual, |t.virtual|);
    }
  }

  /** Going there and back: StorageColumnToTable undoes TableColumnToStorage on every stored column. */
  method RoundTrip(t: Table, iCol: int) returns (r: int)
    requires IsTable(t) && iCol < |t.virtual| && (iCol >= 0 ==> !t.virtual[iCol])
    ensures r == iCol
  {
    if iCol >= 0 { InRange(t, iCol); }
    var k := TableColumnToStorage(t, iCol);
    r := StorageColumnToTable(t, k);
    if iCol >= 0 { Injective(t, r, iCol); }
  }
}
