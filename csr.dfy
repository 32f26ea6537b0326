/** Conversion of unordered (column, row, value) triplets into the
    compressed-sparse-row arrays that PETSc's `setValuesCSR` takes: the
    wrapper's `_ijv2csr`.  The sort is numpy's stable `lexsort`, the row
    pointers come from numpy's left-side `searchsorted`, and the index arrays
    are cast to 32-bit integers on the way out. */
module Csr {

  const Int32Min: int := -0x8000_0000
  const Int32Max: int := 0x7fff_ffff

  predicate InInt32(x: int) { Int32Min <= x <= Int32Max }

  predicate AllInInt32(s: seq<int>) { forall k :: 0 <= k < |s| ==> InInt32(s[k]) }

  /** numpy's `astype('int32')` on one element: the two's-complement value of
      the low 32 bits. */
  function Int32(x: int): (r: int)
    ensures InInt32(r)
    ensures InInt32(x) ==> r == x
  {
    (x - Int32Min) % 0x1_0000_0000 + Int32Min
  }

  /** numpy's `astype('int32')` on an array. */
  function Int32s(s: seq<int>): (r: seq<int>)
    ensures |r| == |s| && AllInInt32(r)
    ensures AllInInt32(s) ==> r == s
  {
    seq(|s|, k requires 0 <= k < |s| => Int32(s[k]))
  }

  /** `numerix.arange(n)`. */
  function Range(n: nat): (r: seq<nat>)
    ensures |r| == n && forall k :: 0 <= k < n ==> r[k] == k
  {
    seq(n, k => k)
  }

  /** Every position in `ix` indexes a sequence of length `n`. */
  predicate Below(ix: seq<nat>, n: nat)
  {
    forall k :: 0 <= k < |ix| ==> ix[k] < n
  }

  /** `a[ix]`: numpy indexing by an array of positions. */
  function Gather<T>(a: seq<T>, ix: seq<nat>): (r: seq<T>)
    requires Below(ix, |a|)
    ensures |r| == |ix| && forall k :: 0 <= k < |ix| ==> r[k] == a[ix[k]]
  {
    seq(|ix|, k requires 0 <= k < |ix| => a[ix[k]])
  }

  predicate Sorted(a: seq<int>)
  {
    forall p, q :: 0 <= p < q < |a| ==> a[p] <= a[q]
  }

  // ---------------------------------------------------------------------------
  // lexsort([i, j])
  // ---------------------------------------------------------------------------

  /** Position `a` comes before position `b` in numpy's stable
      `lexsort([i, j])`: the row key `j` first, then the column key `i`, and
      the input position breaks ties. */
  predicate Precedes(i: seq<int>, j: seq<int>, a: nat, b: nat)
    requires |i| == |j| && a < |i| && b < |i|
  {
    j[a] < j[b] || (j[a] == j[b] && (i[a] < i[b] || (i[a] == i[b] && a < b)))
  }

  /** The positions in `ix` are strictly increasing in the lexsort order. */
  predicate Ordered(i: seq<int>, j: seq<int>, ix: seq<nat>)
    requires |i| == |j| && Below(ix, |i|)
  {
    forall a, b :: 0 <= a < b < |ix| ==> Precedes(i, j, ix[a], ix[b])
  }

  /** `ix` lists each of the positions 0 .. n-1 exactly once. */
  predicate IsPermutation(ix: seq<nat>, n: nat)
  {
    |ix| == n && multiset(ix) == multiset(Range(n))
  }

  /** Inserts position `x` in front of the first element of `s` that it precedes. */
  function Insert(i: seq<int>, j: seq<int>, x: nat, s: seq<nat>): (r: seq<nat>)
    requires |i| == |j| && x < |i| && Below(s, |i|)
    ensures |r| == |s| + 1 && Below(r, |i|)
  {
    if s == [] then [x]
    else if Precedes(i, j, x, s[0]) then [x] + s
    else
      assert s == [s[0]] + s[1..];
      [s[0]] + Insert(i, j, x, s[1..])
  }

  /** Insertion adds `x` and keeps everything already there. */
  lemma {:induction false} InsertMultiset(i: seq<int>, j: seq<int>, x: nat, s: seq<nat>)
    requires |i| == |j| && x < |i| && Below(s, |i|)
    ensures multiset(Insert(i, j, x, s)) == multiset(s) + multiset{x}
  {
    if s != [] && !Precedes(i, j, x, s[0]) {
      InsertMultiset(i, j, x, s[1..]);
      assert s == [s[0]] + s[1..];
    }
  }

  /** Inserting a position below `m` among positions below `m` keeps them all below `m`. */
  lemma {:induction false} InsertBelow(i: seq<int>, j: seq<int>, x: nat, s: seq<nat>, m: nat)
    requires |i| == |j| && x < |i| && Below(s, |i|) && Below(s, m) && x < m
    ensures Below(Insert(i, j, x, s), m)
  {
    if s != [] && !Precedes(i, j, x, s[0]) {
      InsertBelow(i, j, x, s[1..], m);
    }
  }

  /** Insertion sort of the positions 0 .. n-1 in the lexsort order. */
  function LexsortPrefix(i: seq<int>, j: seq<int>, n: nat): (ix: seq<nat>)
    requires |i| == |j| && n <= |i|
    ensures |ix| == n && Below(ix, n)
  {
    if n == 0 then []
    else
      var last: nat := n - 1;
      var s := LexsortPrefix(i, j, last);
      InsertBelow(i, j, last, s, n);
      Insert(i, j, last, s)
  }

  lemma RangeSnoc(n: nat)
    requires n > 0
    ensures Range(n) == Range(n - 1) + [n - 1]
  {
  }

  /** The insertion sort of the first `n` positions holds each of them once. */
  lemma {:induction false} LexsortPrefixPermutes(i: seq<int>, j: seq<int>, n: nat)
    requires |i| == |j| && n <= |i|
    ensures IsPermutation(LexsortPrefix(i, j, n), n)
  {
    if n > 0 {
      LexsortPrefixPermutes(i, j, n - 1);
      LexsortPrefixStep(i, j, n);
      InsertMultiset(i, j, n - 1, LexsortPrefix(i, j, n - 1));
      RangeSnoc(n);
    }
  }

  /** `numerix.lexsort([i, j])`: the positions of the triplets, ordered by
      row `j`, then by column `i`, stably. */
  function Lexsort(i: seq<int>, j: seq<int>): (ix: seq<nat>)
    requires |i| == |j|
    ensures IsPermutation(ix, |i|) && Below(ix, |i|)
  {
    LexsortPrefixPermutes(i, j, |i|);
    LexsortPrefix(i, j, |i|)
  }

  lemma {:induction false} InsertOrdered(i: seq<int>, j: seq<int>, x: nat, s: seq<nat>)
    requires |i| == |j| && x < |i| && Below(s, |i|)
    requires x !in s && Ordered(i, j, s)
    ensures Ordered(i, j, Insert(i, j, x, s))
  {
    if s != [] {
      if Precedes(i, j, x, s[0]) {
        var r := [x] + s;
        forall a, b | 0 <= a < b < |r| ensures Precedes(i, j, r[a], r[b]) {
          if a == 0 && b > 1 {
            assert Precedes(i, j, s[0], s[b - 1]);
          }
        }
      } else {
        var tail := s[1..];
        assert Ordered(i, j, tail) by {
          forall a, b | 0 <= a < b < |tail| ensures Precedes(i, j, tail[a], tail[b]) {
            assert tail[a] == s[a + 1] && tail[b] == s[b + 1];
          }
        }
        assert x !in tail by {
          forall k | 0 <= k < |tail| ensures tail[k] != x {
            assert tail[k] == s[k + 1];
          }
        }
        InsertOrdered(i, j, x, tail);
        var t := Insert(i, j, x, tail);
        InsertMultiset(i, j, x, tail);
        assert s[0] != x;
        forall b | 0 <= b < |t| ensures Precedes(i, j, s[0], t[b]) {
          assert t[b] in multiset(t);
          if t[b] != x {
            assert t[b] in multiset(tail);
            var k :| 0 <= k < |tail| && tail[k] == t[b];
            assert Precedes(i, j, s[0], s[k + 1]);
          }
        }
      }
    }
  }

  /** The first `n` positions are sorted by inserting position `n - 1` into
      the sorted first `n - 1`. */
  lemma LexsortPrefixStep(i: seq<int>, j: seq<int>, n: nat)
    requires |i| == |j| && 0 < n <= |i|
    ensures LexsortPrefix(i, j, n) == Insert(i, j, n - 1, LexsortPrefix(i, j, n - 1))
  {
  }

  /** One insertion step of the sort keeps the prefix ordered. */
  lemma LexsortPrefixOrderedStep(i: seq<int>, j: seq<int>, n: nat)
    requires |i| == |j| && 0 < n <= |i| && Ordered(i, j, LexsortPrefix(i, j, n - 1))
    ensures Ordered(i, j, LexsortPrefix(i, j, n))
  {
    var s := LexsortPrefix(i, j, n - 1);
    LexsortPrefixStep(i, j, n);
    InsertAboveOrdered(i, j, n - 1, s);
  }

  /** Inserting a position above all of an ordered `s` keeps it ordered. */
  lemma InsertAboveOrdered(i: seq<int>, j: seq<int>, x: nat, s: seq<nat>)
    requires |i| == |j| && x < |i| && Below(s, x) && Below(s, |i|) && Ordered(i, j, s)
    ensures Ordered(i, j, Insert(i, j, x, s))
  {
    assert x !in s by {
      forall k | 0 <= k < |s| ensures s[k] != x {
      }
    }
    InsertOrdered(i, j, x, s);
  }

  lemma {:induction false} LexsortPrefixOrdered(i: seq<int>, j: seq<int>, n: nat)
    requires |i| == |j| && n <= |i|
    ensures Ordered(i, j, LexsortPrefix(i, j, n))
  {
    if n > 0 {
      LexsortPrefixOrdered(i, j, n - 1);
      LexsortPrefixOrderedStep(i, j, n);
    }
  }

  /** lexsort yields every position exactly once, in strictly increasing
      (row, column, position) order: rows ascend, columns ascend within a
      row, and equal (row, column) pairs keep their input order. */
  lemma LexsortSortsStably(i: seq<int>, j: seq<int>)
    requires |i| == |j|
    ensures var ix := Lexsort(i, j);
      IsPermutation(ix, |i|)
      && (forall a, b :: 0 <= a < b < |ix| ==>
            j[ix[a]] < j[ix[b]]
            || (j[ix[a]] == j[ix[b]] && i[ix[a]] < i[ix[b]])
            || (j[ix[a]] == j[ix[b]] && i[ix[a]] == i[ix[b]] && ix[a] < ix[b]))
  {
    LexsortPrefixOrdered(i, j, |i|);
  }

  /** Each position 0 .. n-1 occurs in a permutation of them. */
  lemma PermutationCovers(ix: seq<nat>, n: nat, y: nat)
    requires IsPermutation(ix, n) && y < n
    ensures y in ix
  {
    assert Range(n)[y] == y;
    assert y in multiset(Range(n));
    assert y in multiset(ix);
  }

  /** The rows put in lexsort order. */
  function SortedRows(i: seq<int>, j: seq<int>): (rows: seq<int>)
    requires |i| == |j|
    ensures Sorted(rows) && |rows| == |j|
  {
    LexsortPrefixOrdered(i, j, |i|);
    Gather(j, Lexsort(i, j))
  }

  // ---------------------------------------------------------------------------
  // searchsorted
  // ---------------------------------------------------------------------------

  /** Binary search of the sorted `a` between `lo` and `hi`. */
  function Search(a: seq<int>, x: int, lo: nat, hi: nat): (r: nat)
    requires Sorted(a) && lo <= hi <= |a|
    requires forall p :: 0 <= p < lo ==> a[p] < x
    requires forall p :: hi <= p < |a| ==> x <= a[p]
    ensures lo <= r <= hi
    ensures forall p :: 0 <= p < r ==> a[p] < x
    ensures forall p :: r <= p < |a| ==> x <= a[p]
    decreases hi - lo
  {
    if lo == hi then lo
    else
      var mid := (lo + hi) / 2;
      if a[mid] < x then Search(a, x, mid + 1, hi) else Search(a, x, lo, mid)
  }

  /** numpy's `searchsorted(a, x)` (side 'left'): the first position of the
      sorted `a` whose element is not below `x`. */
  function SearchSorted(a: seq<int>, x: int): (r: nat)
    requires Sorted(a)
    ensures r <= |a|
    ensures forall p :: 0 <= p < r ==> a[p] < x
    ensures forall p :: r <= p < |a| ==> x <= a[p]
  {
    Search(a, x, 0, |a|)
  }

  /** The number of elements of `s` below `x`. */
  function CountBelow(s: seq<int>, x: int): (c: nat)
    ensures c <= |s|
  {
    if s == [] then 0 else (if s[0] < x then 1 else 0) + CountBelow(s[1..], x)
  }

  /** The number of elements of `s` equal to `x`. */
  function CountEqual(s: seq<int>, x: int): (c: nat)
    ensures c <= |s|
  {
    if s == [] then 0 else (if s[0] == x then 1 else 0) + CountEqual(s[1..], x)
  }

  lemma {:induction false} CountBelowSplit(a: seq<int>, x: int, r: nat)
    requires r <= |a|
    requires forall p :: 0 <= p < r ==> a[p] < x
    requires forall p :: r <= p < |a| ==> x <= a[p]
    ensures CountBelow(a, x) == r
  {
    if a != [] {
      CountBelowSplit(a[1..], x, if r == 0 then 0 else r - 1);
    }
  }

  /** On a sorted array, searchsorted counts the elements below `x`. */
  lemma SearchSortedCounts(a: seq<int>, x: int)
    requires Sorted(a)
    ensures SearchSorted(a, x) == CountBelow(a, x)
  {
    CountBelowSplit(a, x, SearchSorted(a, x));
  }

  lemma {:induction false} CountBelowAppend(a: seq<int>, b: seq<int>, x: int)
    ensures CountBelow(a + b, x) == CountBelow(a, x) + CountBelow(b, x)
  {
    if a == [] {
      assert a + b == b;
    } else {
      assert (a + b)[1..] == a[1..] + b;
      CountBelowAppend(a[1..], b, x);
    }
  }

  /** Gathering one more position in front counts that row too. */
  lemma CountBelowGatherCons(j: seq<int>, x: nat, s: seq<nat>, y: int)
    requires x < |j| && Below(s, |j|)
    ensures CountBelow(Gather(j, [x] + s), y) == (if j[x] < y then 1 else 0) + CountBelow(Gather(j, s), y)
  {
    assert Gather(j, [x] + s)[1..] == Gather(j, s);
  }

  lemma {:induction false} CountBelowInsert(i: seq<int>, j: seq<int>, x: nat, s: seq<nat>, y: int)
    requires |i| == |j| && x < |i| && Below(s, |i|)
    ensures CountBelow(Gather(j, Insert(i, j, x, s)), y)
         == CountBelow(Gather(j, s), y) + (if j[x] < y then 1 else 0)
  {
    if s == [] {
      CountBelowGatherCons(j, x, s, y);
      assert [x] + s == [x];
    } else if Precedes(i, j, x, s[0]) {
      CountBelowGatherCons(j, x, s, y);
    } else {
      var t := Insert(i, j, x, s[1..]);
      CountBelowInsert(i, j, x, s[1..], y);
      CountBelowGatherCons(j, s[0], t, y);
      CountBelowGatherCons(j, s[0], s[1..], y);
      assert [s[0]] + s[1..] == s;
    }
  }

  /** Extending a prefix by one row adds that row's count. */
  lemma CountBelowSnoc(j: seq<int>, n: nat, y: int)
    requires 0 < n <= |j|
    ensures CountBelow(j[..n], y) == CountBelow(j[..n - 1], y) + (if j[n - 1] < y then 1 else 0)
  {
    assert CountBelow([j[n - 1]], y) == (if j[n - 1] < y then 1 else 0);
    CountBelowAppend(j[..n - 1], [j[n - 1]], y);
    assert j[..n - 1] + [j[n - 1]] == j[..n];
  }

  /** Inserting position `n - 1` into an ordering of the first `n - 1`
      positions extends their count to the first `n`. */
  lemma CountBelowInsertPrefix(i: seq<int>, j: seq<int>, s: seq<nat>, n: nat, y: int)
    requires |i| == |j| && 0 < n <= |i| && Below(s, |i|)
    requires CountBelow(Gather(j, s), y) == CountBelow(j[..n - 1], y)
    ensures CountBelow(Gather(j, Insert(i, j, n - 1, s)), y) == CountBelow(j[..n], y)
  {
    CountBelowInsert(i, j, n - 1, s, y);
    CountBelowSnoc(j, n, y);
  }

  lemma {:induction false} CountBelowLexsortPrefix(i: seq<int>, j: seq<int>, n: nat, y: int)
    requires |i| == |j| && n <= |i|
    ensures CountBelow(Gather(j, LexsortPrefix(i, j, n)), y) == CountBelow(j[..n], y)
  {
    if n > 0 {
      CountBelowLexsortPrefix(i, j, n - 1, y);
      CountBelowInsertPrefix(i, j, LexsortPrefix(i, j, n - 1), n, y);
    }
  }

  /** Sorting does not change how many rows lie below a bound. */
  lemma SortedRowsCountBelow(i: seq<int>, j: seq<int>, y: int)
    requires |i| == |j|
    ensures CountBelow(SortedRows(i, j), y) == CountBelow(j, y)
  {
    CountBelowLexsortPrefix(i, j, |i|, y);
    assert j[..|i|] == j;
  }

  lemma {:induction false} CountBelowMonotone(s: seq<int>, x: int, y: int)
    requires x <= y
    ensures CountBelow(s, x) <= CountBelow(s, y)
  {
    if s != [] {
      CountBelowMonotone(s[1..], x, y);
    }
  }

  /** Moving the bound up by one adds the elements equal to the old bound. */
  lemma {:induction false} CountBelowStep(s: seq<int>, x: int)
    ensures CountBelow(s, x + 1) == CountBelow(s, x) + CountEqual(s, x)
  {
    if s != [] {
      CountBelowStep(s[1..], x);
    }
  }

  lemma {:induction false} CountEqualZero(s: seq<int>, x: int)
    ensures CountEqual(s, x) == 0 <==> forall n :: 0 <= n < |s| ==> s[n] != x
  {
    if s != [] {
      CountEqualZero(s[1..], x);
      assert forall n :: 1 <= n < |s| ==> s[n] == s[1..][n - 1];
    }
  }

  lemma {:induction false} CountBelowAll(s: seq<int>, x: int)
    ensures (forall n :: 0 <= n < |s| ==> s[n] < x) ==> CountBelow(s, x) == |s|
    ensures (forall n :: 0 <= n < |s| ==> x <= s[n]) ==> CountBelow(s, x) == 0
  {
    if s != [] {
      CountBelowAll(s[1..], x);
      assert forall n :: 1 <= n < |s| ==> s[n] == s[1..][n - 1];
    }
  }

  // ---------------------------------------------------------------------------
  // _ijv2csr
  // ---------------------------------------------------------------------------

  /** `searchsorted(rows, arange(start, end + 1))`. */
  function RowPtr(rows: seq<int>, start: int, end: int): (rp: seq<int>)
    requires Sorted(rows) && start <= end
    ensures |rp| == end - start + 1
  {
    seq(end - start + 1, k requires 0 <= k < end - start + 1 => SearchSorted(rows, start + k) as int)
  }

  /** Compressed sparse rows: row `start + k` holds the columns and values at
      positions `rowPtr[k] .. rowPtr[k + 1] - 1`. */
  datatype Csr = Csr(rowPtr: seq<int>, cols: seq<int>, vals: seq<real>)

  /** `_ijv2csr(i, j, v)` for the ownership range `start .. end - 1`: `i` are
      the column indices, `j` the row indices, `v` the values. */
  function Ijv2Csr(i: seq<int>, j: seq<int>, v: seq<real>, start: int, end: int): (csr: Csr)
    requires |i| == |j| <= |v| && start <= end
    ensures |csr.rowPtr| == end - start + 1 && |csr.cols| == |csr.vals| == |i|
  {
    var ix := Lexsort(i, j);
    Csr(Int32s(RowPtr(SortedRows(i, j), start, end)), Int32s(Gather(i, ix)), Gather(v, ix))
  }

  /** The columns and values come out under the lexsort permutation. */
  lemma Ijv2CsrPermutes(i: seq<int>, j: seq<int>, v: seq<real>, start: int, end: int)
    requires |i| == |j| <= |v| && start <= end && AllInInt32(i)
    ensures var csr := Ijv2Csr(i, j, v, start, end); var ix := Lexsort(i, j);
      IsPermutation(ix, |i|)
      && (forall p :: 0 <= p < |i| ==> csr.cols[p] == i[ix[p]] && csr.vals[p] == v[ix[p]])
  {
    var ix := Lexsort(i, j);
    assert AllInInt32(Gather(i, ix));
  }

  /** Each row pointer counts the triplets whose row lies below its row, so
      the pointers never decrease. */
  lemma RowPtrCounts(i: seq<int>, j: seq<int>, v: seq<real>, start: int, end: int)
    requires |i| == |j| <= |v| && start <= end && |i| <= Int32Max
    ensures var rp := Ijv2Csr(i, j, v, start, end).rowPtr;
      |rp| == end - start + 1
      && (forall k :: 0 <= k < |rp| ==> rp[k] == CountBelow(j, start + k))
      && (forall k, l :: 0 <= k <= l < |rp| ==> rp[k] <= rp[l])
  {
    var rp := Ijv2Csr(i, j, v, start, end).rowPtr;
    RowPtrOfSortedRows(i, j, v, start, end);
    SortedRowPtrCounts(i, j, start, end);
    forall k, l | 0 <= k <= l < |rp| ensures rp[k] <= rp[l] {
      CountBelowMonotone(j, start + k, start + l);
    }
  }

  /** The 32-bit cast leaves the row pointers unchanged. */
  lemma RowPtrOfSortedRows(i: seq<int>, j: seq<int>, v: seq<real>, start: int, end: int)
    requires |i| == |j| <= |v| && start <= end && |i| <= Int32Max
    ensures Ijv2Csr(i, j, v, start, end).rowPtr == RowPtr(SortedRows(i, j), start, end)
  {
    RowPtrInInt32(SortedRows(i, j), start, end);
  }

  /** Row pointer `k` counts the rows below `start + k`. */
  lemma SortedRowPtrCounts(i: seq<int>, j: seq<int>, start: int, end: int)
    requires |i| == |j| && start <= end
    ensures var rp := RowPtr(SortedRows(i, j), start, end);
      forall k :: 0 <= k < |rp| ==> rp[k] == CountBelow(j, start + k)
  {
    var rows := SortedRows(i, j);
    var rp := RowPtr(rows, start, end);
    forall k | 0 <= k < |rp| ensures rp[k] == CountBelow(j, start + k) {
      SearchSortedCounts(rows, start + k);
      SortedRowsCountBelow(i, j, start + k);
    }
  }

  /** Row pointers into at most 2^31 - 1 rows survive the 32-bit cast. */
  lemma RowPtrInInt32(rows: seq<int>, start: int, end: int)
    requires Sorted(rows) && start <= end && |rows| <= Int32Max
    ensures AllInInt32(RowPtr(rows, start, end))
  {
    var rp := RowPtr(rows, start, end);
    forall k | 0 <= k < |rp| ensures InInt32(rp[k]) {
      assert rp[k] == SearchSorted(rows, start + k);
    }
  }

  /** The sorted triplets of row `start + k` occupy exactly the positions
      `rowPtr[k] .. rowPtr[k + 1] - 1`. */
  lemma RowPtrDelimitsRow(i: seq<int>, j: seq<int>, v: seq<real>, start: int, end: int, k: int, p: int)
    requires |i| == |j| <= |v| && start <= end && |i| <= Int32Max
    requires 0 <= k < end - start && 0 <= p < |i|
    ensures var rp := Ijv2Csr(i, j, v, start, end).rowPtr;
      (j[Lexsort(i, j)[p]] == start + k <==> rp[k] <= p < rp[k + 1])
  {
    var rows := SortedRows(i, j);
    var rp0 := RowPtr(rows, start, end);
    RowPtrInInt32(rows, start, end);
    assert rp0[k] == SearchSorted(rows, start + k) && rp0[k + 1] == SearchSorted(rows, start + k + 1);
  }

  /** A row without triplets gets two equal consecutive pointers, and only
      such a row does. */
  lemma RowPtrEmptyRow(i: seq<int>, j: seq<int>, v: seq<real>, start: int, end: int, k: int)
    requires |i| == |j| <= |v| && start <= end && |i| <= Int32Max
    requires 0 <= k < end - start
    ensures var rp := Ijv2Csr(i, j, v, start, end).rowPtr;
      (rp[k] == rp[k + 1] <==> forall n :: 0 <= n < |j| ==> j[n] != start + k)
  {
    RowPtrCounts(i, j, v, start, end);
    CountBelowStep(j, start + k);
    CountEqualZero(j, start + k);
  }

  /** When every row is owned, the pointers run from 0 to the number of
      triplets. */
  lemma RowPtrSpansAll(i: seq<int>, j: seq<int>, v: seq<real>, start: int, end: int)
    requires |i| == |j| <= |v| && start <= end && |i| <= Int32Max
    requires forall n :: 0 <= n < |j| ==> start <= j[n] < end
    ensures var rp := Ijv2Csr(i, j, v, start, end).rowPtr;
      rp[0] == 0 && rp[end - start] == |i|
  {
    RowPtrCounts(i, j, v, start, end);
    CountBelowAll(j, start);
    CountBelowAll(j, end);
  }
}
