/** The PETSc matrix behind the wrapper, as far as the wrapper observes it: a
    shape, the stored entries and whether it is assembled; PETSc's
    `setValuesCSR` as `put` and `addAt` use it; and the algebra (`+`, `-`,
    scaling, `matMult`, `mult`, `multTranspose`) that the wrapper delegates
    to PETSc. */
module MatStore {
  import opened Csr
  import opened Outcomes

  /** Stored entries keyed by (row, column); a key that is not stored reads as 0. */
  type Entries = map<(int, int), real>

  function Entry(e: Entries, r: int, c: int): real
  {
    if (r, c) in e then e[(r, c)] else 0.0
  }

  predicate InShape(e: Entries, rows: nat, cols: nat)
  {
    forall k :: k in e ==> 0 <= k.0 < rows && 0 <= k.1 < cols
  }

  /** A PETSc `Mat`: its size, its stored entries, and whether it is assembled. */
  datatype Mat = Mat(rows: nat, cols: nat, entries: Entries, assembled: bool)

  /** Every stored entry lies inside the matrix. */
  predicate WellShaped(m: Mat)
  {
    InShape(m.entries, m.rows, m.cols)
  }

  // ---------------------------------------------------------------------------
  // setValuesCSR
  // ---------------------------------------------------------------------------

  /** `addv=False` overwrites an entry, `addv=True` accumulates into it. */
  datatype InsertMode = InsertValues | AddValues

  datatype Triplet = Triplet(row: int, col: int, val: real)

  /** The triplets (rows[n], cols[n], vals[n]). */
  function Triplets(rows: seq<int>, cols: seq<int>, vals: seq<real>): (ts: seq<Triplet>)
    requires |rows| == |cols| <= |vals|
    ensures |ts| == |rows|
    ensures forall n :: 0 <= n < |rows| ==> ts[n] == Triplet(rows[n], cols[n], vals[n])
  {
    seq(|rows|, n requires 0 <= n < |rows| => Triplet(rows[n], cols[n], vals[n]))
  }

  function Write(e: Entries, t: Triplet, mode: InsertMode): Entries
  {
    e[(t.row, t.col) := if mode == AddValues then Entry(e, t.row, t.col) + t.val else t.val]
  }

  /** Writes the triplets one after the other. */
  function Apply(e: Entries, ts: seq<Triplet>, mode: InsertMode): Entries
    decreases |ts|
  {
    if ts == [] then e else Apply(Write(e, ts[0], mode), ts[1..], mode)
  }

  predicate CsrShaped(rowPtr: seq<int>, nnz: nat)
  {
    (forall k :: 0 <= k < |rowPtr| ==> 0 <= rowPtr[k] <= nnz)
    && (forall k, l :: 0 <= k <= l < |rowPtr| ==> rowPtr[k] <= rowPtr[l])
  }

  /** Row `r` receives the columns and values at positions `lo .. hi - 1`. */
  function SetRow(e: Entries, r: int, cols: seq<int>, vals: seq<real>, lo: nat, hi: nat, mode: InsertMode): Entries
    requires lo <= hi <= |cols| == |vals|
    decreases hi - lo
  {
    if lo == hi then e
    else SetRow(Write(e, Triplet(r, cols[lo], vals[lo]), mode), r, cols, vals, lo + 1, hi, mode)
  }

  /** PETSc's `setValuesCSR(rowPtr, cols, vals, addv)` on a matrix whose owned
      rows begin at `start`: row `start + k` receives the columns and values
      at positions `rowPtr[k] .. rowPtr[k + 1] - 1`, row after row. */
  function SetValuesCsr(e: Entries, start: int, rowPtr: seq<int>, cols: seq<int>, vals: seq<real>, mode: InsertMode): Entries
    requires |cols| == |vals| && CsrShaped(rowPtr, |cols|)
    decreases |rowPtr|
  {
    if |rowPtr| < 2 then e
    else
      assert CsrShaped(rowPtr[1..], |cols|) by {
        forall k, l | 0 <= k <= l < |rowPtr| - 1 ensures rowPtr[1..][k] <= rowPtr[1..][l] {
          assert rowPtr[1..][k] == rowPtr[k + 1] && rowPtr[1..][l] == rowPtr[l + 1];
        }
      }
      SetValuesCsr(SetRow(e, start, cols, vals, rowPtr[0], rowPtr[1], mode), start + 1, rowPtr[1..], cols, vals, mode)
  }

  /** What `put` (InsertValues) and `addAt` (AddValues) do to the entries of a
      matrix that owns rows 0 .. rows-1: the triplets (id1[n], id2[n],
      vector[n]) go through `_ijv2csr(id2, id1, vector)` into `setValuesCSR`. */
  function SetValuesIjv(e: Entries, rows: nat, vector: seq<real>, id1: seq<int>, id2: seq<int>, mode: InsertMode): Entries
    requires |id1| == |id2| <= |vector| && |id1| <= Int32Max
  {
    var csr := Ijv2Csr(id2, id1, vector, 0, rows);
    RowPtrCounts(id2, id1, vector, 0, rows);
    SetValuesCsr(e, 0, csr.rowPtr, csr.cols, csr.vals, mode)
  }

  /** The sum of the values the triplets carry for (r, c). */
  function KeySum(ts: seq<Triplet>, r: int, c: int): real
  {
    if ts == [] then 0.0
    else (if ts[0].row == r && ts[0].col == c then ts[0].val else 0.0) + KeySum(ts[1..], r, c)
  }

  /** The value of the last triplet for (r, c), if any. */
  function Last(ts: seq<Triplet>, r: int, c: int): Option<real>
  {
    if ts == [] then None
    else
      var later := Last(ts[1..], r, c);
      if later.Some? then later
      else if ts[0].row == r && ts[0].col == c then Some(ts[0].val)
      else None
  }

  /** Some triplet writes (r, c). */
  predicate Writes(ts: seq<Triplet>, r: int, c: int)
  {
    exists p :: 0 <= p < |ts| && ts[p].row == r && ts[p].col == c
  }

  /** No two triplets write the same (row, column). */
  predicate DistinctKeys(ts: seq<Triplet>)
  {
    forall a, b :: 0 <= a < b < |ts| ==> (ts[a].row, ts[a].col) != (ts[b].row, ts[b].col)
  }

  lemma {:induction false} ApplyAppend(e: Entries, a: seq<Triplet>, b: seq<Triplet>, mode: InsertMode)
    ensures Apply(e, a + b, mode) == Apply(Apply(e, a, mode), b, mode)
    decreases |a|
  {
    if a == [] {
      assert a + b == b;
    } else {
      assert (a + b)[1..] == a[1..] + b;
      ApplyAppend(Write(e, a[0], mode), a[1..], b, mode);
    }
  }

  lemma {:induction false} SetRowIsApply(e: Entries, r: int, cols: seq<int>, vals: seq<real>, lo: nat, hi: nat,
                                         ts: seq<Triplet>, mode: InsertMode)
    requires lo <= hi <= |cols| == |vals| == |ts|
    requires forall p :: lo <= p < hi ==> ts[p] == Triplet(r, cols[p], vals[p])
    ensures SetRow(e, r, cols, vals, lo, hi, mode) == Apply(e, ts[lo..hi], mode)
    decreases hi - lo
  {
    if lo < hi {
      assert ts[lo..hi][0] == ts[lo] && ts[lo..hi][1..] == ts[lo + 1..hi];
      SetRowIsApply(Write(e, ts[lo], mode), r, cols, vals, lo + 1, hi, ts, mode);
    }
  }

  /** Dropping the first row pointer leaves a well-shaped CSR for the rows after `start`. */
  lemma CsrTail(start: int, rowPtr: seq<int>, cols: seq<int>, vals: seq<real>, ts: seq<Triplet>)
    requires |cols| == |vals| == |ts| && CsrShaped(rowPtr, |cols|) && |rowPtr| >= 2
    requires forall k, p :: 0 <= k < |rowPtr| - 1 && rowPtr[k] <= p < rowPtr[k + 1] ==> ts[p].row == start + k
    requires forall p :: 0 <= p < |ts| ==> ts[p].col == cols[p] && ts[p].val == vals[p]
    ensures CsrShaped(rowPtr[1..], |cols|)
    ensures forall p :: rowPtr[0] <= p < rowPtr[1] ==> ts[p] == Triplet(start, cols[p], vals[p])
    ensures forall k, p :: 0 <= k < |rowPtr| - 2 && rowPtr[1..][k] <= p < rowPtr[1..][k + 1] ==> ts[p].row == start + 1 + k
  {
    var rest := rowPtr[1..];
    forall k, l | 0 <= k <= l < |rest| ensures rest[k] <= rest[l] {
      assert rest[k] == rowPtr[k + 1] && rest[l] == rowPtr[l + 1];
    }
    forall p | rowPtr[0] <= p < rowPtr[1] ensures ts[p] == Triplet(start, cols[p], vals[p]) {
      assert ts[p].row == start + 0;
    }
    forall k, p | 0 <= k < |rest| - 1 && rest[k] <= p < rest[k + 1] ensures ts[p].row == start + 1 + k {
      assert rest[k] == rowPtr[k + 1] && rest[k + 1] == rowPtr[k + 2];
    }
  }

  lemma {:induction false} SetValuesCsrIsApply(e: Entries, start: int, rowPtr: seq<int>, cols: seq<int>, vals: seq<real>,
                                               ts: seq<Triplet>, mode: InsertMode)
    requires |cols| == |vals| == |ts| && CsrShaped(rowPtr, |cols|) && |rowPtr| >= 1
    requires forall p :: 0 <= p < |ts| ==> ts[p].col == cols[p] && ts[p].val == vals[p]
    requires forall k, p :: 0 <= k < |rowPtr| - 1 && rowPtr[k] <= p < rowPtr[k + 1] ==> ts[p].row == start + k
    ensures SetValuesCsr(e, start, rowPtr, cols, vals, mode) == Apply(e, ts[rowPtr[0]..rowPtr[|rowPtr| - 1]], mode)
    decreases |rowPtr|
  {
    if |rowPtr| >= 2 {
      var lo, mid, hi := rowPtr[0], rowPtr[1], rowPtr[|rowPtr| - 1];
      var rest := rowPtr[1..];
      CsrTail(start, rowPtr, cols, vals, ts);
      var e1 := SetRow(e, start, cols, vals, lo, mid, mode);
      SetRowIsApply(e, start, cols, vals, lo, mid, ts, mode);
      SetValuesCsrIsApply(e1, start + 1, rest, cols, vals, ts, mode);
      assert rest[|rest| - 1] == hi;
      assert ts[lo..hi] == ts[lo..mid] + ts[mid..hi];
      ApplyAppend(e, ts[lo..mid], ts[mid..hi], mode);
    } else {
      assert ts[rowPtr[0]..rowPtr[0]] == [];
    }
  }

  /** With every row owned, `put` and `addAt` write the triplets in lexsort order. */
  lemma SetValuesIjvIsApply(e: Entries, rows: nat, vector: seq<real>, id1: seq<int>, id2: seq<int>, mode: InsertMode)
    requires |id1| == |id2| <= |vector| && |id1| <= Int32Max && AllInInt32(id2)
    requires forall n :: 0 <= n < |id1| ==> 0 <= id1[n] < rows
    ensures SetValuesIjv(e, rows, vector, id1, id2, mode)
         == Apply(e, Gather(Triplets(id1, id2, vector), Lexsort(id2, id1)), mode)
  {
    var csr := Ijv2Csr(id2, id1, vector, 0, rows);
    var ts := Gather(Triplets(id1, id2, vector), Lexsort(id2, id1));
    RowPtrCounts(id2, id1, vector, 0, rows);
    RowPtrSpansAll(id2, id1, vector, 0, rows);
    SortedTripletsAreCsr(rows, vector, id1, id2);
    SetValuesCsrIsApply(e, 0, csr.rowPtr, csr.cols, csr.vals, ts, mode);
    assert ts[0..|ts|] == ts;
  }

  /** The triplets in lexsort order are, position by position, the columns and
      values of the CSR form, and those between the pointers of row `k` are
      the triplets of row `k`. */
  lemma SortedTripletsAreCsr(rows: nat, vector: seq<real>, id1: seq<int>, id2: seq<int>)
    requires |id1| == |id2| <= |vector| && |id1| <= Int32Max && AllInInt32(id2)
    ensures var csr := Ijv2Csr(id2, id1, vector, 0, rows);
      var ts := Gather(Triplets(id1, id2, vector), Lexsort(id2, id1));
      (forall p :: 0 <= p < |ts| ==> ts[p].col == csr.cols[p] && ts[p].val == csr.vals[p])
      && (forall k, p :: 0 <= k < |csr.rowPtr| - 1 && csr.rowPtr[k] <= p < csr.rowPtr[k + 1] ==> ts[p].row == 0 + k)
  {
    var csr := Ijv2Csr(id2, id1, vector, 0, rows);
    var ts := Gather(Triplets(id1, id2, vector), Lexsort(id2, id1));
    Ijv2CsrPermutes(id2, id1, vector, 0, rows);
    forall k, p | 0 <= k < |csr.rowPtr| - 1 && csr.rowPtr[k] <= p < csr.rowPtr[k + 1] ensures ts[p].row == 0 + k {
      RowPtrDelimitsRow(id2, id1, vector, 0, rows, k, p);
    }
  }

  // ---------------------------------------------------------------------------
  // What writing triplets does to each entry
  // ---------------------------------------------------------------------------

  /** Accumulating adds every value for (r, c) onto what was there. */
  lemma {:induction false} ApplyAddAt(e: Entries, ts: seq<Triplet>, r: int, c: int)
    ensures Entry(Apply(e, ts, AddValues), r, c) == Entry(e, r, c) + KeySum(ts, r, c)
    decreases |ts|
  {
    if ts != [] {
      ApplyAddAt(Write(e, ts[0], AddValues), ts[1..], r, c);
    }
  }

  /** Overwriting leaves the last value written for (r, c). */
  lemma {:induction false} ApplyInsertAt(e: Entries, ts: seq<Triplet>, r: int, c: int)
    ensures Entry(Apply(e, ts, InsertValues), r, c)
         == if Last(ts, r, c).Some? then Last(ts, r, c).value else Entry(e, r, c)
    decreases |ts|
  {
    if ts != [] {
      ApplyInsertAt(Write(e, ts[0], InsertValues), ts[1..], r, c);
    }
  }

  /** Either mode stores exactly the old keys and the keys written. */
  lemma {:induction false} ApplyKeys(e: Entries, ts: seq<Triplet>, mode: InsertMode, r: int, c: int)
    ensures (r, c) in Apply(e, ts, mode) <==> (r, c) in e || Writes(ts, r, c)
    decreases |ts|
  {
    if ts != [] {
      ApplyKeys(Write(e, ts[0], mode), ts[1..], mode, r, c);
      if Writes(ts[1..], r, c) {
        var p :| 0 <= p < |ts[1..]| && ts[1..][p].row == r && ts[1..][p].col == c;
        assert ts[p + 1] == ts[1..][p];
      }
      if Writes(ts, r, c) && !(ts[0].row == r && ts[0].col == c) {
        var p :| 0 <= p < |ts| && ts[p].row == r && ts[p].col == c;
        assert ts[1..][p - 1] == ts[p];
      }
    }
  }

  /** Among triplets with distinct keys, the one for (r, c) is the last. */
  lemma {:induction false} LastOfDistinct(ts: seq<Triplet>, p: nat)
    requires DistinctKeys(ts) && p < |ts|
    ensures Last(ts, ts[p].row, ts[p].col) == Some(ts[p].val)
  {
    var tail := ts[1..];
    assert DistinctKeys(tail) by {
      forall a, b | 0 <= a < b < |tail| ensures (tail[a].row, tail[a].col) != (tail[b].row, tail[b].col) {
        assert tail[a] == ts[a + 1] && tail[b] == ts[b + 1];
      }
    }
    if p == 0 {
      LastAbsent(tail, ts[0].row, ts[0].col);
    } else {
      LastOfDistinct(tail, p - 1);
    }
  }

  lemma {:induction false} LastAbsent(ts: seq<Triplet>, r: int, c: int)
    requires !Writes(ts, r, c)
    ensures Last(ts, r, c) == None
  {
    if ts != [] {
      assert !Writes(ts[1..], r, c) by {
        forall p | 0 <= p < |ts[1..]| ensures !(ts[1..][p].row == r && ts[1..][p].col == c) {
          assert ts[1..][p] == ts[p + 1];
        }
      }
      LastAbsent(ts[1..], r, c);
    }
  }

  // Sorting the triplets does not change what they sum to.

  lemma {:induction false} KeySumAppend(a: seq<Triplet>, b: seq<Triplet>, r: int, c: int)
    ensures KeySum(a + b, r, c) == KeySum(a, r, c) + KeySum(b, r, c)
  {
    if a == [] {
      assert a + b == b;
    } else {
      assert (a + b)[1..] == a[1..] + b;
      KeySumAppend(a[1..], b, r, c);
    }
  }

  /** Gathering one more position in front adds that triplet's share. */
  lemma KeySumGatherCons(ts: seq<Triplet>, x: nat, s: seq<nat>, r: int, c: int)
    requires x < |ts| && Below(s, |ts|)
    ensures KeySum(Gather(ts, [x] + s), r, c)
         == (if ts[x].row == r && ts[x].col == c then ts[x].val else 0.0) + KeySum(Gather(ts, s), r, c)
  {
    assert Gather(ts, [x] + s)[1..] == Gather(ts, s);
  }

  lemma {:induction false} KeySumInsert(i: seq<int>, j: seq<int>, ts: seq<Triplet>, x: nat, s: seq<nat>, r: int, c: int)
    requires |i| == |j| == |ts| && x < |i| && Below(s, |i|)
    ensures KeySum(Gather(ts, Insert(i, j, x, s)), r, c)
         == KeySum(Gather(ts, s), r, c) + (if ts[x].row == r && ts[x].col == c then ts[x].val else 0.0)
  {
    if s == [] {
      KeySumGatherCons(ts, x, s, r, c);
      assert [x] + s == [x];
    } else if Precedes(i, j, x, s[0]) {
      KeySumGatherCons(ts, x, s, r, c);
    } else {
      var t := Insert(i, j, x, s[1..]);
      KeySumInsert(i, j, ts, x, s[1..], r, c);
      KeySumGatherCons(ts, s[0], t, r, c);
      KeySumGatherCons(ts, s[0], s[1..], r, c);
      assert [s[0]] + s[1..] == s;
    }
  }

  /** Extending a prefix by one triplet adds that triplet's share. */
  lemma KeySumSnoc(ts: seq<Triplet>, n: nat, r: int, c: int)
    requires 0 < n <= |ts|
    ensures KeySum(ts[..n], r, c)
         == KeySum(ts[..n - 1], r, c) + (if ts[n - 1].row == r && ts[n - 1].col == c then ts[n - 1].val else 0.0)
  {
    var t := ts[n - 1];
    assert KeySum([t], r, c) == (if t.row == r && t.col == c then t.val else 0.0);
    KeySumAppend(ts[..n - 1], [t], r, c);
    assert ts[..n - 1] + [t] == ts[..n];
  }

  /** Inserting position `n - 1` into an ordering of the first `n - 1`
      triplets extends their sum to the first `n`. */
  lemma KeySumInsertPrefix(i: seq<int>, j: seq<int>, ts: seq<Triplet>, s: seq<nat>, n: nat, r: int, c: int)
    requires |i| == |j| == |ts| && 0 < n <= |i| && Below(s, |i|)
    requires KeySum(Gather(ts, s), r, c) == KeySum(ts[..n - 1], r, c)
    ensures KeySum(Gather(ts, Insert(i, j, n - 1, s)), r, c) == KeySum(ts[..n], r, c)
  {
    KeySumInsert(i, j, ts, n - 1, s, r, c);
    KeySumSnoc(ts, n, r, c);
  }

  lemma {:induction false} KeySumLexsortPrefix(i: seq<int>, j: seq<int>, ts: seq<Triplet>, n: nat, r: int, c: int)
    requires |i| == |j| == |ts| && n <= |i|
    ensures KeySum(Gather(ts, LexsortPrefix(i, j, n)), r, c) == KeySum(ts[..n], r, c)
  {
    if n > 0 {
      KeySumLexsortPrefix(i, j, ts, n - 1, r, c);
      KeySumInsertPrefix(i, j, ts, LexsortPrefix(i, j, n - 1), n, r, c);
    }
  }

  lemma KeySumLexsort(i: seq<int>, j: seq<int>, ts: seq<Triplet>, r: int, c: int)
    requires |i| == |j| == |ts|
    ensures KeySum(Gather(ts, Lexsort(i, j)), r, c) == KeySum(ts, r, c)
  {
    KeySumLexsortPrefix(i, j, ts, |i|, r, c);
    assert ts[..|i|] == ts;
  }

  // ---------------------------------------------------------------------------
  // The meaning of put and addAt
  // ---------------------------------------------------------------------------

  /** No two of the positional pairs (id1[n], id2[n]) coincide. */
  predicate DistinctPairs(id1: seq<int>, id2: seq<int>)
    requires |id1| == |id2|
  {
    forall a, b :: 0 <= a < b < |id1| ==> (id1[a], id2[a]) != (id1[b], id2[b])
  }

  /** Some positional pair (id1[n], id2[n]) is (r, c). */
  predicate Targets(id1: seq<int>, id2: seq<int>, r: int, c: int)
    requires |id1| == |id2|
  {
    exists n :: 0 <= n < |id1| && id1[n] == r && id2[n] == c
  }

  /** The sorted triplets write (r, c) exactly when some input pair is (r, c). */
  lemma SortedWrites(vector: seq<real>, id1: seq<int>, id2: seq<int>, r: int, c: int)
    requires |id1| == |id2| <= |vector|
    ensures Writes(Gather(Triplets(id1, id2, vector), Lexsort(id2, id1)), r, c) <==> Targets(id1, id2, r, c)
  {
    var ix := Lexsort(id2, id1);
    var ts := Gather(Triplets(id1, id2, vector), ix);
    if Writes(ts, r, c) {
      var p :| 0 <= p < |ts| && ts[p].row == r && ts[p].col == c;
      assert id1[ix[p]] == r && id2[ix[p]] == c;
    }
    if Targets(id1, id2, r, c) {
      var n :| 0 <= n < |id1| && id1[n] == r && id2[n] == c;
      PermutationCovers(ix, |id1|, n);
      var p :| 0 <= p < |ix| && ix[p] == n;
      assert ts[p].row == r && ts[p].col == c;
    }
  }

  /** The range checks `put` and `addAt` rely on: every pair lies inside the
      shape, which 32-bit indices can address. */
  predicate PairsInShape(id1: seq<int>, id2: seq<int>, rows: nat, cols: nat)
    requires |id1| == |id2|
  {
    rows <= Int32Max && cols <= Int32Max && |id1| <= Int32Max
    && forall n :: 0 <= n < |id1| ==> 0 <= id1[n] < rows && 0 <= id2[n] < cols
  }

  /** In either mode, `put` and `addAt` store exactly the old keys and the
      pairs written, so a matrix keeps its entries inside its shape. */
  lemma SetValuesIjvKeys(e: Entries, rows: nat, cols: nat, vector: seq<real>, id1: seq<int>, id2: seq<int>, mode: InsertMode)
    requires |id1| == |id2| <= |vector| && PairsInShape(id1, id2, rows, cols)
    ensures var e' := SetValuesIjv(e, rows, vector, id1, id2, mode);
      (forall r, c :: (r, c) in e' <==> (r, c) in e || Targets(id1, id2, r, c))
      && (InShape(e, rows, cols) ==> InShape(e', rows, cols))
  {
    var ts := Gather(Triplets(id1, id2, vector), Lexsort(id2, id1));
    var e' := SetValuesIjv(e, rows, vector, id1, id2, mode);
    SetValuesIjvIsApply(e, rows, vector, id1, id2, mode);
    forall r, c ensures (r, c) in e' <==> (r, c) in e || Targets(id1, id2, r, c) {
      ApplyKeys(e, ts, mode, r, c);
      SortedWrites(vector, id1, id2, r, c);
    }
    if InShape(e, rows, cols) {
      forall k | k in e' ensures 0 <= k.0 < rows && 0 <= k.1 < cols {
        assert (k.0, k.1) in e';
      }
    }
  }

  /** `addAt(vector, id1, id2)` adds every vector[n] onto entry
      (id1[n], id2[n]), duplicates within the call included. */
  lemma AddAtMeaning(e: Entries, rows: nat, cols: nat, vector: seq<real>, id1: seq<int>, id2: seq<int>)
    requires |id1| == |id2| <= |vector| && PairsInShape(id1, id2, rows, cols)
    ensures var e' := SetValuesIjv(e, rows, vector, id1, id2, AddValues);
      forall r, c :: Entry(e', r, c) == Entry(e, r, c) + KeySum(Triplets(id1, id2, vector), r, c)
  {
    var ix := Lexsort(id2, id1);
    var ts := Gather(Triplets(id1, id2, vector), ix);
    var e' := SetValuesIjv(e, rows, vector, id1, id2, AddValues);
    SetValuesIjvIsApply(e, rows, vector, id1, id2, AddValues);
    forall r, c ensures Entry(e', r, c) == Entry(e, r, c) + KeySum(Triplets(id1, id2, vector), r, c) {
      ApplyAddAt(e, ts, r, c);
      KeySumLexsort(id2, id1, Triplets(id1, id2, vector), r, c);
    }
  }

  /** `put(vector, id1, id2)` with distinct pairs sets entry (id1[n], id2[n])
      to vector[n] and leaves every other entry as it was. */
  lemma PutMeaning(e: Entries, rows: nat, cols: nat, vector: seq<real>, id1: seq<int>, id2: seq<int>)
    requires |id1| == |id2| <= |vector| && PairsInShape(id1, id2, rows, cols) && DistinctPairs(id1, id2)
    ensures var e' := SetValuesIjv(e, rows, vector, id1, id2, InsertValues);
      (forall n :: 0 <= n < |id1| ==> Entry(e', id1[n], id2[n]) == vector[n])
      && (forall r, c :: !Targets(id1, id2, r, c) ==> Entry(e', r, c) == Entry(e, r, c))
  {
    var ix := Lexsort(id2, id1);
    var ts := Gather(Triplets(id1, id2, vector), ix);
    var e' := SetValuesIjv(e, rows, vector, id1, id2, InsertValues);
    SetValuesIjvIsApply(e, rows, vector, id1, id2, InsertValues);
    LexsortSortsStably(id2, id1);
    assert DistinctKeys(ts) by {
      forall a, b | 0 <= a < b < |ts| ensures (ts[a].row, ts[a].col) != (ts[b].row, ts[b].col) {
        var x, y := ix[a], ix[b];
        assert x != y;
        if x < y {
          assert (id1[x], id2[x]) != (id1[y], id2[y]);
        } else {
          assert (id1[y], id2[y]) != (id1[x], id2[x]);
        }
      }
    }
    forall n | 0 <= n < |id1| ensures Entry(e', id1[n], id2[n]) == vector[n] {
      PermutationCovers(ix, |id1|, n);
      var p :| 0 <= p < |ix| && ix[p] == n;
      LastOfDistinct(ts, p);
      ApplyInsertAt(e, ts, id1[n], id2[n]);
    }
    forall r, c | !Targets(id1, id2, r, c) ensures Entry(e', r, c) == Entry(e, r, c) {
      SortedWrites(vector, id1, id2, r, c);
      LastAbsent(ts, r, c);
      ApplyInsertAt(e, ts, r, c);
    }
  }

  // ---------------------------------------------------------------------------
  // The algebra the wrapper hands to PETSc
  // ---------------------------------------------------------------------------

  /** Entrywise sum; the stored keys are those of either operand. */
  function Sum(a: Entries, b: Entries): (s: Entries)
    ensures s.Keys == a.Keys + b.Keys
    ensures forall r, c :: Entry(s, r, c) == Entry(a, r, c) + Entry(b, r, c)
  {
    map k | k in a.Keys + b.Keys :: Entry(a, k.0, k.1) + Entry(b, k.0, k.1)
  }

  /** Entrywise difference; the stored keys are those of either operand. */
  function Difference(a: Entries, b: Entries): (s: Entries)
    ensures s.Keys == a.Keys + b.Keys
    ensures forall r, c :: Entry(s, r, c) == Entry(a, r, c) - Entry(b, r, c)
  {
    map k | k in a.Keys + b.Keys :: Entry(a, k.0, k.1) - Entry(b, k.0, k.1)
  }

  /** Every entry multiplied by `x`; the stored keys are kept. */
  function Scaled(a: Entries, x: real): (s: Entries)
    ensures s.Keys == a.Keys
    ensures forall r, c :: Entry(s, r, c) == x * Entry(a, r, c)
  {
    map k | k in a :: x * a[k]
  }

  /** Row `r` of `a` against column `c` of `b`, over the inner indices 0 .. n-1. */
  function Dot(a: Entries, b: Entries, r: int, c: int, n: nat): real
  {
    if n == 0 then 0.0 else Dot(a, b, r, c, n - 1) + Entry(a, r, n - 1) * Entry(b, n - 1, c)
  }

  /** The positions the product can fill: a stored (r, k) meets a stored (k, c). */
  function ProductKeys(a: Entries, b: Entries): set<(int, int)>
  {
    set p, q | p in a.Keys && q in b.Keys && p.1 == q.0 :: (p.0, q.1)
  }

  lemma {:induction false} DotOutsideProductKeys(a: Entries, b: Entries, r: int, c: int, n: nat)
    requires (r, c) !in ProductKeys(a, b)
    ensures Dot(a, b, r, c, n) == 0.0
  {
    if n > 0 {
      DotOutsideProductKeys(a, b, r, c, n - 1);
      var k := n - 1;
      assert (r, k) !in a || (k, c) !in b;
    }
  }

  /** The product of `a` (inner dimension `n`) and `b`. */
  function Product(a: Entries, b: Entries, n: nat): (p: Entries)
    ensures forall r, c :: Entry(p, r, c) == Dot(a, b, r, c, n)
  {
    var p := map k | k in ProductKeys(a, b) :: Dot(a, b, k.0, k.1, n);
    assert forall r, c :: Entry(p, r, c) == Dot(a, b, r, c, n) by {
      forall r, c ensures Entry(p, r, c) == Dot(a, b, r, c, n) {
        if (r, c) !in ProductKeys(a, b) {
          DotOutsideProductKeys(a, b, r, c, n);
        }
      }
    }
    p
  }

  lemma ProductInShape(a: Entries, b: Entries, n: nat, rows: nat, inner: nat, cols: nat)
    requires InShape(a, rows, inner) && InShape(b, inner, cols)
    ensures InShape(Product(a, b, n), rows, cols)
  {
    forall k | k in Product(a, b, n) ensures 0 <= k.0 < rows && 0 <= k.1 < cols {
      var p, q :| p in a.Keys && q in b.Keys && p.1 == q.0 && k == (p.0, q.1);
    }
  }

  /** Row `r` of `e` against `x`, over the columns 0 .. n-1. */
  function RowDot(e: Entries, r: int, x: seq<real>, n: nat): real
    requires n <= |x|
  {
    if n == 0 then 0.0 else RowDot(e, r, x, n - 1) + Entry(e, r, n - 1) * x[n - 1]
  }

  /** Column `c` of `e` against `x`, over the rows 0 .. n-1. */
  function ColDot(e: Entries, c: int, x: seq<real>, n: nat): real
    requires n <= |x|
  {
    if n == 0 then 0.0 else ColDot(e, c, x, n - 1) + Entry(e, n - 1, c) * x[n - 1]
  }

  /** `e x` for a matrix with `rows` rows. */
  function MatVec(e: Entries, rows: nat, x: seq<real>): (y: seq<real>)
    ensures |y| == rows
    ensures forall r :: 0 <= r < rows ==> y[r] == RowDot(e, r, x, |x|)
  {
    seq(rows, r requires 0 <= r < rows => RowDot(e, r, x, |x|))
  }

  /** `x e` (that is, the transpose of `e` applied to `x`) for a matrix with `cols` columns. */
  function MatVecTransposed(e: Entries, cols: nat, x: seq<real>): (y: seq<real>)
    ensures |y| == cols
    ensures forall c :: 0 <= c < cols ==> y[c] == ColDot(e, c, x, |x|)
  {
    seq(cols, c requires 0 <= c < cols => ColDot(e, c, x, |x|))
  }

  /** `x` as a matrix of one column. */
  function ColumnOf(x: seq<real>): (e: Entries)
    ensures forall r, c :: Entry(e, r, c) == if c == 0 && 0 <= r < |x| then x[r] else 0.0
  {
    var e := map k | 0 <= k < |x| :: (k, 0) := x[k];
    assert forall r, c :: Entry(e, r, c) == if c == 0 && 0 <= r < |x| then x[r] else 0.0 by {
      forall r, c ensures Entry(e, r, c) == if c == 0 && 0 <= r < |x| then x[r] else 0.0 {
        if c == 0 && 0 <= r < |x| {
          assert (r, 0) in e;
        }
      }
    }
    e
  }

  /** `x` as a matrix of one row. */
  function RowOf(x: seq<real>): (e: Entries)
    ensures forall r, c :: Entry(e, r, c) == if r == 0 && 0 <= c < |x| then x[c] else 0.0
  {
    var e := map k | 0 <= k < |x| :: (0, k) := x[k];
    assert forall r, c :: Entry(e, r, c) == if r == 0 && 0 <= c < |x| then x[c] else 0.0 by {
      forall r, c ensures Entry(e, r, c) == if r == 0 && 0 <= c < |x| then x[c] else 0.0 {
        if r == 0 && 0 <= c < |x| {
          assert (0, c) in e;
        }
      }
    }
    e
  }

  lemma {:induction false} RowDotIsDot(e: Entries, r: int, x: seq<real>, n: nat)
    requires n <= |x|
    ensures RowDot(e, r, x, n) == Dot(e, ColumnOf(x), r, 0, n)
  {
    if n > 0 {
      RowDotIsDot(e, r, x, n - 1);
    }
  }

  lemma {:induction false} ColDotIsDot(e: Entries, c: int, x: seq<real>, n: nat)
    requires n <= |x|
    ensures ColDot(e, c, x, n) == Dot(RowOf(x), e, 0, c, n)
  {
    if n > 0 {
      ColDotIsDot(e, c, x, n - 1);
    }
  }

  /** `mult` is the matrix product with `x` taken as a single column: entry r
      of `e x` is entry (r, 0) of that product. */
  lemma MatVecIsProduct(e: Entries, rows: nat, x: seq<real>)
    ensures forall r :: 0 <= r < rows ==> MatVec(e, rows, x)[r] == Entry(Product(e, ColumnOf(x), |x|), r, 0)
  {
    forall r | 0 <= r < rows ensures MatVec(e, rows, x)[r] == Entry(Product(e, ColumnOf(x), |x|), r, 0) {
      RowDotIsDot(e, r, x, |x|);
    }
  }

  /** `multTranspose` is the matrix product with `x` taken as a single row on
      the left: entry c of `x e` is entry (0, c) of that product. */
  lemma MatVecTransposedIsProduct(e: Entries, cols: nat, x: seq<real>)
    ensures forall c :: 0 <= c < cols ==> MatVecTransposed(e, cols, x)[c] == Entry(Product(RowOf(x), e, |x|), 0, c)
  {
    forall c | 0 <= c < cols ensures MatVecTransposed(e, cols, x)[c] == Entry(Product(RowOf(x), e, |x|), 0, c) {
      ColDotIsDot(e, c, x, |x|);
    }
  }

  /** The transpose: (r, c) is stored at (c, r). */
  function Transposed(e: Entries): (t: Entries)
    ensures forall r, c :: Entry(t, r, c) == Entry(e, c, r)
  {
    var t := map k | k in e :: (k.1, k.0) := e[k];
    assert forall r, c :: Entry(t, r, c) == Entry(e, c, r) by {
      forall r, c ensures Entry(t, r, c) == Entry(e, c, r) {
        if (c, r) in e {
          assert (r, c) in t;
        }
      }
    }
    t
  }

  /** Ones on the diagonal of an n-by-n matrix. */
  function IdentityEntries(n: nat): (e: Entries)
    ensures InShape(e, n, n)
    ensures forall r, c :: Entry(e, r, c) == if r == c && 0 <= r < n then 1.0 else 0.0
  {
    var e := map d | 0 <= d < n :: (d, d) := 1.0;
    assert forall r, c :: Entry(e, r, c) == if r == c && 0 <= r < n then 1.0 else 0.0 by {
      forall r, c ensures Entry(e, r, c) == if r == c && 0 <= r < n then 1.0 else 0.0 {
        if r == c && 0 <= r < n {
          assert (r, r) in e;
        }
      }
    }
    e
  }

  // PETSc's operations on whole matrices, with the errors the wrapper can meet.

  /** PETSc's `A + B`: a copy of A with B added to it. */
  function AddMat(a: Mat, b: Mat): (r: Result<Mat>)
    ensures r.Ok? <==> a.rows == b.rows && a.cols == b.cols
    ensures r.Err? ==> r.error == SizeMismatch
    ensures r.Ok? ==> (r.value.rows == a.rows && r.value.cols == a.cols && r.value.assembled
      && forall i, j :: Entry(r.value.entries, i, j) == Entry(a.entries, i, j) + Entry(b.entries, i, j))
    ensures r.Ok? && WellShaped(a) && WellShaped(b) ==> WellShaped(r.value)
  {
    if a.rows != b.rows || a.cols != b.cols then Err(SizeMismatch)
    else Ok(Mat(a.rows, a.cols, Sum(a.entries, b.entries), true))
  }

  /** PETSc's `A - B`: a copy of A with B subtracted from it. */
  function SubMat(a: Mat, b: Mat): (r: Result<Mat>)
    ensures r.Ok? <==> a.rows == b.rows && a.cols == b.cols
    ensures r.Err? ==> r.error == SizeMismatch
    ensures r.Ok? ==> (r.value.rows == a.rows && r.value.cols == a.cols && r.value.assembled
      && forall i, j :: Entry(r.value.entries, i, j) == Entry(a.entries, i, j) - Entry(b.entries, i, j))
    ensures r.Ok? && WellShaped(a) && WellShaped(b) ==> WellShaped(r.value)
  {
    if a.rows != b.rows || a.cols != b.cols then Err(SizeMismatch)
    else Ok(Mat(a.rows, a.cols, Difference(a.entries, b.entries), true))
  }

  /** PETSc's `A * x` for a scalar x: a scaled copy of A. */
  function ScaleMat(a: Mat, x: real): (r: Mat)
    ensures r.rows == a.rows && r.cols == a.cols && r.assembled
    ensures forall i, j :: Entry(r.entries, i, j) == x * Entry(a.entries, i, j)
    ensures WellShaped(a) ==> WellShaped(r)
  {
    Mat(a.rows, a.cols, Scaled(a.entries, x), true)
  }

  /** PETSc's `A.matMult(B)`: both operands must be assembled and conform. */
  function MatMult(a: Mat, b: Mat): (r: Result<Mat>)
    ensures r.Ok? <==> a.assembled && b.assembled && a.cols == b.rows
    ensures r.Err? ==> r.error == if a.assembled && b.assembled then SizeMismatch else WrongState
    ensures r.Ok? ==> (r.value.rows == a.rows && r.value.cols == b.cols && r.value.assembled
      && forall i, j :: Entry(r.value.entries, i, j) == Dot(a.entries, b.entries, i, j, a.cols))
    ensures r.Ok? && WellShaped(a) && WellShaped(b) ==> WellShaped(r.value)
  {
    if !a.assembled || !b.assembled then Err(WrongState)
    else if a.cols != b.rows then Err(SizeMismatch)
    else
      var p := Product(a.entries, b.entries, a.cols);
      if WellShaped(a) && WellShaped(b) then
        ProductInShape(a.entries, b.entries, a.cols, a.rows, a.cols, b.cols);
        Ok(Mat(a.rows, b.cols, p, true))
      else Ok(Mat(a.rows, b.cols, p, true))
  }

  /** PETSc's `A.mult(x, y)` with an output vector of length `yLength`. */
  function Mult(a: Mat, x: seq<real>, yLength: nat): (r: Result<seq<real>>)
    ensures r.Ok? <==> a.assembled && |x| == a.cols && yLength == a.rows
    ensures r.Err? ==> r.error == if a.assembled then SizeMismatch else WrongState
    ensures r.Ok? ==> (|r.value| == a.rows
      && forall i :: 0 <= i < a.rows ==> r.value[i] == RowDot(a.entries, i, x, a.cols))
  {
    if !a.assembled then Err(WrongState)
    else if |x| != a.cols || yLength != a.rows then Err(SizeMismatch)
    else Ok(MatVec(a.entries, a.rows, x))
  }

  /** PETSc's `A.multTranspose(x, y)` with an output vector of length `yLength`. */
  function MultTranspose(a: Mat, x: seq<real>, yLength: nat): (r: Result<seq<real>>)
    ensures r.Ok? <==> a.assembled && |x| == a.rows && yLength == a.cols
    ensures r.Err? ==> r.error == if a.assembled then SizeMismatch else WrongState
    ensures r.Ok? ==> (|r.value| == a.cols
      && forall j :: 0 <= j < a.cols ==> r.value[j] == ColDot(a.entries, j, x, a.rows))
  {
    if !a.assembled then Err(WrongState)
    else if |x| != a.rows || yLength != a.cols then Err(SizeMismatch)
    else Ok(MatVecTransposed(a.entries, a.cols, x))
  }

  // Algebraic facts about these operations.

  /** `+` is commutative, which is what lets `__radd__` be `__add__`. */
  lemma AddMatCommutes(a: Mat, b: Mat)
    ensures AddMat(a, b).Ok? <==> AddMat(b, a).Ok?
    ensures AddMat(a, b).Ok? ==> AddMat(a, b).value == AddMat(b, a).value
  {
    if AddMat(a, b).Ok? {
      var s, t := Sum(a.entries, b.entries), Sum(b.entries, a.entries);
      assert forall k :: k in s ==> s[k] == Entry(s, k.0, k.1);
      assert forall k :: k in t ==> t[k] == Entry(t, k.0, k.1);
      assert s == t;
    }
  }

  /** Subtracting what was added gives back the original entries. */
  lemma SubMatUndoesAddMat(a: Mat, b: Mat)
    requires a.rows == b.rows && a.cols == b.cols
    ensures SubMat(AddMat(a, b).value, b).Ok?
    ensures forall i, j :: Entry(SubMat(AddMat(a, b).value, b).value.entries, i, j) == Entry(a.entries, i, j)
  {
  }

  /** Negating and adding `b` is subtracting from `b`: the rule `__rsub__` relies on. */
  lemma NegatedPlusIsSubtraction(a: Mat, b: Mat)
    ensures AddMat(ScaleMat(a, -1.0), b).Ok? == SubMat(b, a).Ok?
    ensures AddMat(ScaleMat(a, -1.0), b).Ok? ==>
      forall i, j :: Entry(AddMat(ScaleMat(a, -1.0), b).value.entries, i, j) == Entry(SubMat(b, a).value.entries, i, j)
  {
  }

  lemma {:induction false} DotWithIdentity(a: Entries, n: nat, r: int, c: int, m: nat)
    requires m <= n
    ensures Dot(a, IdentityEntries(n), r, c, m) == if 0 <= c < m then Entry(a, r, c) else 0.0
  {
    if m > 0 {
      DotWithIdentity(a, n, r, c, m - 1);
    }
  }

  /** A matrix times the identity of its column count is the matrix itself. */
  lemma MatMultIdentity(a: Mat)
    requires WellShaped(a) && a.assembled
    ensures MatMult(a, Mat(a.cols, a.cols, IdentityEntries(a.cols), true)).Ok?
    ensures forall i, j :: Entry(MatMult(a, Mat(a.cols, a.cols, IdentityEntries(a.cols), true)).value.entries, i, j)
                        == Entry(a.entries, i, j)
  {
    var m := MatMult(a, Mat(a.cols, a.cols, IdentityEntries(a.cols), true));
    forall i, j ensures Entry(m.value.entries, i, j) == Entry(a.entries, i, j) {
      DotWithIdentity(a.entries, a.cols, i, j, a.cols);
    }
  }

  lemma {:induction false} RowDotWithIdentity(n: nat, r: int, x: seq<real>, m: nat)
    requires m <= |x|
    ensures RowDot(IdentityEntries(n), r, x, m) == if 0 <= r < m && r < n then x[r] else 0.0
  {
    if m > 0 {
      RowDotWithIdentity(n, r, x, m - 1);
    }
  }

  /** The identity applied to a vector of its size returns the vector. */
  lemma MultIdentity(x: seq<real>)
    ensures Mult(Mat(|x|, |x|, IdentityEntries(|x|), true), x, |x|) == Ok(x)
  {
    var y := MatVec(IdentityEntries(|x|), |x|, x);
    forall r | 0 <= r < |x| ensures y[r] == x[r] {
      RowDotWithIdentity(|x|, r, x, |x|);
    }
    assert y == x;
  }

  lemma {:induction false} ColDotIsRowDotOfTransposed(e: Entries, c: int, x: seq<real>, n: nat)
    requires n <= |x|
    ensures ColDot(e, c, x, n) == RowDot(Transposed(e), c, x, n)
  {
    if n > 0 {
      ColDotIsRowDotOfTransposed(e, c, x, n - 1);
    }
  }

  /** `multTranspose` applies the transpose: the vector-times-matrix product. */
  lemma MultTransposeIsMultOfTransposed(a: Mat, x: seq<real>)
    requires a.assembled && |x| == a.rows
    ensures MultTranspose(a, x, a.cols) == Mult(Mat(a.cols, a.rows, Transposed(a.entries), true), x, a.cols)
  {
    var u, v := MatVecTransposed(a.entries, a.cols, x), MatVec(Transposed(a.entries), a.cols, x);
    forall j | 0 <= j < a.cols ensures u[j] == v[j] {
      ColDotIsRowDotOfTransposed(a.entries, j, x, |x|);
    }
    assert u == v;
  }
}
