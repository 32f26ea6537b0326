/** The usage examples documented beside the wrapper's operations, as client
    code with its exact outcome. `pi` stands for `numerix.pi`, whose value
    no example depends on beyond its own appearance. */
module PETScExamples {
  import opened Outcomes
  import opened Csr
  import opened MatStore
  import opened PETScMatrices

  /** `addAt((1., 0., 2.), (0, 2, 1), (1, 2, 0))` on a 3-by-3 matrix hands
      setValuesCSR row pointers [0, 1, 2, 3], columns [1, 0, 2] and values
      [1, 2, 0]. */
  lemma CsrOfAddAtExample()
    ensures Ijv2Csr([1, 2, 0], [0, 2, 1], [1.0, 0.0, 2.0], 0, 3) == Csr([0, 1, 2, 3], [1, 0, 2], [1.0, 2.0, 0.0])
  {
    CsrOfTriplets([1, 2, 0], [0, 2, 1], [1.0, 0.0, 2.0]);
  }

  /** The same example over sequences given by name, so that the solver does
      not unfold the conversion on literal arguments. */
  lemma CsrOfTriplets(i: seq<int>, j: seq<int>, v: seq<real>)
    requires i == [1, 2, 0] && j == [0, 2, 1] && v == [1.0, 0.0, 2.0]
    ensures Ijv2Csr(i, j, v, 0, 3) == Csr([0, 1, 2, 3], [1, 0, 2], [1.0, 2.0, 0.0])
  {
    RowPtrOfTriplets(i, j, v);
    ColumnsOfTriplets(i, j, v);
  }

  lemma RowPtrOfTriplets(i: seq<int>, j: seq<int>, v: seq<real>)
    requires i == [1, 2, 0] && j == [0, 2, 1] && v == [1.0, 0.0, 2.0]
    ensures Ijv2Csr(i, j, v, 0, 3).rowPtr == [0, 1, 2, 3]
  {
    RowPtrCounts(i, j, v, 0, 3);
    CountsOfAddAtExample(j);
    FourOf(Ijv2Csr(i, j, v, 0, 3).rowPtr, 0, 1, 2, 3);
  }

  lemma ColumnsOfTriplets(i: seq<int>, j: seq<int>, v: seq<real>)
    requires i == [1, 2, 0] && j == [0, 2, 1] && v == [1.0, 0.0, 2.0]
    ensures Ijv2Csr(i, j, v, 0, 3).cols == [1, 0, 2]
    ensures Ijv2Csr(i, j, v, 0, 3).vals == [1.0, 2.0, 0.0]
  {
    var cols, vals := Ijv2Csr(i, j, v, 0, 3).cols, Ijv2Csr(i, j, v, 0, 3).vals;
    PermutedOfTriplets(i, j, v);
    ThreeOf(cols, 1, 0, 2);
    ThreeOf(vals, 1.0, 2.0, 0.0);
  }

  lemma PermutedOfTriplets(i: seq<int>, j: seq<int>, v: seq<real>)
    requires i == [1, 2, 0] && j == [0, 2, 1] && v == [1.0, 0.0, 2.0]
    ensures var csr := Ijv2Csr(i, j, v, 0, 3);
      csr.cols[0] == 1 && csr.cols[1] == 0 && csr.cols[2] == 2
      && csr.vals[0] == 1.0 && csr.vals[1] == 2.0 && csr.vals[2] == 0.0
  {
    LexsortOfAddAtExample(i, j);
    Ijv2CsrPermutes(i, j, v, 0, 3);
    GatheredOfExample(i, v, Lexsort(i, j));
  }

  /** The columns and values at the sorted positions of the example. */
  lemma GatheredOfExample(i: seq<int>, v: seq<real>, ix: seq<nat>)
    requires i == [1, 2, 0] && v == [1.0, 0.0, 2.0] && ix == [0, 2, 1]
    ensures i[ix[0]] == 1 && i[ix[1]] == 0 && i[ix[2]] == 2
    ensures v[ix[0]] == 1.0 && v[ix[1]] == 2.0 && v[ix[2]] == 0.0
  {
  }

  /** A sequence of length three is the display of its three elements. */
  lemma ThreeOf<T>(s: seq<T>, a: T, b: T, c: T)
    requires |s| == 3 && s[0] == a && s[1] == b && s[2] == c
    ensures s == [a, b, c]
  {
  }

  /** A sequence of length four is the display of its four elements. */
  lemma FourOf<T>(s: seq<T>, a: T, b: T, c: T, d: T)
    requires |s| == 4 && s[0] == a && s[1] == b && s[2] == c && s[3] == d
    ensures s == [a, b, c, d]
  {
  }

  /** The sorting permutation of that example: row 0, then row 1, then row 2. */
  lemma LexsortOfAddAtExample(i: seq<int>, j: seq<int>)
    requires i == [1, 2, 0] && j == [0, 2, 1]
    ensures Lexsort(i, j) == [0, 2, 1]
  {
    LexsortFirstTwoOfExample(i, j);
    LexsortPrefixStep(i, j, 3);
    InsertLastOfExample(i, j, LexsortPrefix(i, j, 2));
  }

  lemma LexsortFirstTwoOfExample(i: seq<int>, j: seq<int>)
    requires i == [1, 2, 0] && j == [0, 2, 1]
    ensures LexsortPrefix(i, j, 2) == [0, 1]
  {
    LexsortPrefixStep(i, j, 1);
    LexsortPrefixStep(i, j, 2);
    assert Insert(i, j, 0, []) == [0];
    assert !Precedes(i, j, 1, 0);
    assert Insert(i, j, 1, []) == [1];
    assert Insert(i, j, 1, [0]) == [0, 1];
  }

  lemma InsertLastOfExample(i: seq<int>, j: seq<int>, s: seq<nat>)
    requires i == [1, 2, 0] && j == [0, 2, 1] && s == [0, 1]
    ensures Insert(i, j, 2, s) == [0, 2, 1]
  {
    assert Precedes(i, j, 2, 1);
    assert Insert(i, j, 2, [1]) == [2, 1];
    assert !Precedes(i, j, 2, 0);
    assert s[1..] == [1];
  }

  /** How many of the example's rows lie below each row boundary. */
  lemma CountsOfAddAtExample(j: seq<int>)
    requires j == [0, 2, 1]
    ensures CountBelow(j, 0) == 0 && CountBelow(j, 1) == 1
    ensures CountBelow(j, 2) == 2 && CountBelow(j, 3) == 3
  {
    var t1 := j[1..];
    var t2 := t1[1..];
    assert t1 == [2, 1] && t2 == [1] && t2[1..] == [];
    forall y ensures CountBelow(j, y) == (if 0 < y then 1 else 0) + (if 2 < y then 1 else 0) + (if 1 < y then 1 else 0) {
      assert CountBelow(t2[1..], y) == 0;
      assert CountBelow(t2, y) == (if 1 < y then 1 else 0);
      assert CountBelow(t1, y) == (if 2 < y then 1 else 0) + (if 1 < y then 1 else 0);
    }
  }

  /** The 3-by-3 matrix that `put([3., 10., pi, 2.5], [0, 0, 1, 2], [2, 1, 1, 0])`
      builds, used by most examples. */
  method PutExampleMatrix(pi: real) returns (l: PETScMatrix)
    ensures fresh(l) && l.Valid() && l.held && l.mesh == None
    ensures l.matrix.rows == 3 && l.matrix.cols == 3 && !l.matrix.assembled
    ensures forall r, c :: Entry(l.matrix.entries, r, c) == DenseEntry([[0.0, 10.0, 3.0], [0.0, pi, 0.0], [2.5, 0.0, 0.0]], r, c)
  {
    l := new PETScMatrix.FromShape(3, 3, None);
    PutOnEmpty(l, pi, [3.0, 10.0, pi, 2.5], [0, 0, 1, 2], [2, 1, 1, 0]);
  }

  /** The `put` of the example on a fresh empty 3-by-3 matrix, over sequences
      given by name. */
  method PutOnEmpty(l: PETScMatrix, pi: real, vector: seq<real>, id1: seq<int>, id2: seq<int>)
    requires vector == [3.0, 10.0, pi, 2.5] && id1 == [0, 0, 1, 2] && id2 == [2, 1, 1, 0]
    requires l.Valid() && l.held && l.mesh == None && l.matrix == Mat(3, 3, map[], false)
    modifies l`matrix
    ensures l.Valid() && l.matrix.rows == 3 && l.matrix.cols == 3 && !l.matrix.assembled
    ensures forall r, c :: Entry(l.matrix.entries, r, c) == DenseEntry([[0.0, 10.0, 3.0], [0.0, pi, 0.0], [2.5, 0.0, 0.0]], r, c)
  {
    PutExampleDistinct(id1, id2);
    var _ := l.Put(vector, id1, id2);
    PutExampleTable(pi, vector, id1, id2, map[], l.matrix.entries);
  }

  /** The four positions of the `put` example are distinct. */
  lemma PutExampleDistinct(id1: seq<int>, id2: seq<int>)
    requires id1 == [0, 0, 1, 2] && id2 == [2, 1, 1, 0]
    ensures DistinctPairs(id1, id2) && PairsInShape(id1, id2, 3, 3)
  {
  }

  /** Writing the `put` example's values into an empty matrix gives its table. */
  lemma PutExampleTable(pi: real, vector: seq<real>, id1: seq<int>, id2: seq<int>, before: Entries, after: Entries)
    requires vector == [3.0, 10.0, pi, 2.5] && id1 == [0, 0, 1, 2] && id2 == [2, 1, 1, 0]
    requires forall r, c :: Entry(before, r, c) == 0.0
    requires forall n :: 0 <= n < |id1| ==> Entry(after, id1[n], id2[n]) == vector[n]
    requires forall r, c :: !Targets(id1, id2, r, c) ==> Entry(after, r, c) == Entry(before, r, c)
    ensures forall r, c :: Entry(after, r, c) == DenseEntry([[0.0, 10.0, 3.0], [0.0, pi, 0.0], [2.5, 0.0, 0.0]], r, c)
  {
    forall r, c ensures Entry(after, r, c) == DenseEntry([[0.0, 10.0, 3.0], [0.0, pi, 0.0], [2.5, 0.0, 0.0]], r, c) {
      if (r, c) == (0, 2) {
        assert Entry(after, id1[0], id2[0]) == vector[0];
      } else if (r, c) == (0, 1) {
        assert Entry(after, id1[1], id2[1]) == vector[1];
      } else if (r, c) == (1, 1) {
        assert Entry(after, id1[2], id2[2]) == vector[2];
      } else if (r, c) == (2, 0) {
        assert Entry(after, id1[3], id2[3]) == vector[3];
      } else {
        assert !Targets(id1, id2, r, c);
      }
    }
  }

  /** The value at (r, c) of a small dense matrix given by its rows; 0 outside it. */
  function DenseEntry(rows: seq<seq<real>>, r: int, c: int): real
  {
    if 0 <= r < |rows| && 0 <= c < |rows[r]| then rows[r][c] else 0.0
  }

  /** `put` then `print`: the entries written, everything else empty. */
  method PutExample(pi: real) returns (dense: Result<seq<seq<real>>>)
    ensures dense == Ok([[0.0, 10.0, 3.0], [0.0, pi, 0.0], [2.5, 0.0, 0.0]])
  {
    var l := PutExampleMatrix(pi);
    dense := ReadDense(l, [[0.0, 10.0, 3.0], [0.0, pi, 0.0], [2.5, 0.0, 0.0]]);
  }

  /** `print` of a 3-by-3 matrix whose entries agree with a table shows that table. */
  method ReadDense(l: PETScMatrix, t: seq<seq<real>>) returns (dense: Result<seq<seq<real>>>)
    requires l.Valid() && l.held && l.matrix.rows == 3 && l.matrix.cols == 3
    requires |t| == 3 && forall i :: 0 <= i < 3 ==> |t[i]| == 3
    requires forall r, c :: 0 <= r < 3 && 0 <= c < 3 ==> Entry(l.matrix.entries, r, c) == DenseEntry(t, r, c)
    modifies l`matrix
    ensures dense == Ok(t)
  {
    dense := l.NumpyArray();
    ShowsDense(dense, t);
  }

  /** A dense read-out that agrees with a 3-by-3 table entry by entry is that table. */
  lemma ShowsDense(dense: Result<seq<seq<real>>>, t: seq<seq<real>>)
    requires |t| == 3 && forall i :: 0 <= i < 3 ==> |t[i]| == 3
    requires dense.Ok? && |dense.value| == 3
    requires forall i :: 0 <= i < 3 ==>
               |dense.value[i]| == 3 && forall j :: 0 <= j < 3 ==> dense.value[i][j] == DenseEntry(t, i, j)
    ensures dense == Ok(t)
  {
    forall i | 0 <= i < 3 ensures dense.value[i] == t[i] {
      assert forall j :: 0 <= j < 3 ==> dense.value[i][j] == t[i][j];
    }
    assert dense.value == t;
  }

  /** `addAt([1.73, 2.2, 8.4, 3.9, 1.23], [1, 2, 0, 0, 1], [2, 2, 0, 0, 2])`
      after the `put` example: the two values for (0, 0) and the two for
      (1, 2) are both summed. */
  method AddAtExample(pi: real) returns (dense: Result<seq<seq<real>>>)
    ensures dense == Ok([[12.3, 10.0, 3.0], [0.0, pi, 2.96], [2.5, 0.0, 2.2]])
  {
    var l := PutExampleMatrix(pi);
    AddOnPut(l, pi, [1.73, 2.2, 8.4, 3.9, 1.23], [1, 2, 0, 0, 1], [2, 2, 0, 0, 2]);
    dense := ReadDense(l, [[12.3, 10.0, 3.0], [0.0, pi, 2.96], [2.5, 0.0, 2.2]]);
  }

  /** The `addAt` of the example on the `put` example's matrix, over sequences
      given by name. */
  method AddOnPut(l: PETScMatrix, pi: real, vector: seq<real>, id1: seq<int>, id2: seq<int>)
    requires vector == [1.73, 2.2, 8.4, 3.9, 1.23] && id1 == [1, 2, 0, 0, 1] && id2 == [2, 2, 0, 0, 2]
    requires l.Valid() && l.held && l.matrix.rows == 3 && l.matrix.cols == 3
    requires forall r, c :: Entry(l.matrix.entries, r, c) == DenseEntry([[0.0, 10.0, 3.0], [0.0, pi, 0.0], [2.5, 0.0, 0.0]], r, c)
    modifies l`matrix
    ensures l.Valid() && l.matrix.rows == 3 && l.matrix.cols == 3
    ensures forall r, c :: Entry(l.matrix.entries, r, c) == DenseEntry([[12.3, 10.0, 3.0], [0.0, pi, 2.96], [2.5, 0.0, 2.2]], r, c)
  {
    assert PairsInShape(id1, id2, 3, 3);
    var _ := l.AddAt(vector, id1, id2);
    forall r, c ensures KeySum(Triplets(id1, id2, vector), r, c) == DenseEntry([[8.4 + 3.9, 0.0, 0.0], [0.0, 0.0, 1.73 + 1.23], [0.0, 0.0, 2.2]], r, c) {
      AddAtExampleSums(vector, id1, id2, r, c);
    }
  }

  /** What the `addAt` example adds at each position: both values for (0, 0)
      and for (1, 2), the single value for (2, 2), nothing elsewhere. */
  lemma AddAtExampleSums(vector: seq<real>, id1: seq<int>, id2: seq<int>, r: int, c: int)
    requires vector == [1.73, 2.2, 8.4, 3.9, 1.23] && id1 == [1, 2, 0, 0, 1] && id2 == [2, 2, 0, 0, 2]
    ensures KeySum(Triplets(id1, id2, vector), r, c) == DenseEntry([[8.4 + 3.9, 0.0, 0.0], [0.0, 0.0, 1.73 + 1.23], [0.0, 0.0, 2.2]], r, c)
  {
    var ts := Triplets(id1, id2, vector);
    assert ts == [Triplet(1, 2, 1.73), Triplet(2, 2, 2.2), Triplet(0, 0, 8.4), Triplet(0, 0, 3.9), Triplet(1, 2, 1.23)];
    assert ts[1..][1..][1..][1..][1..] == [];
    var k4 := KeySum(ts[1..][1..][1..][1..], r, c);
    var k3 := KeySum(ts[1..][1..][1..], r, c);
    var k2 := KeySum(ts[1..][1..], r, c);
    var k1 := KeySum(ts[1..], r, c);
    assert KeySum(ts, r, c) == (if (r, c) == (1, 2) then 1.73 else 0.0) + k1;
    assert k1 == (if (r, c) == (2, 2) then 2.2 else 0.0) + k2;
    assert k2 == (if (r, c) == (0, 0) then 8.4 else 0.0) + k3;
    assert k3 == (if (r, c) == (0, 0) then 3.9 else 0.0) + k4;
    assert KeySum(ts[1..][1..][1..][1..][1..], r, c) == 0.0;
    assert k4 == if (r, c) == (1, 2) then 1.23 else 0.0;
  }

  /** `putDiagonal([3., 10., pi])` then `putDiagonal([10., 3.])` on an empty
      3-by-3 matrix: the second call rewrites only the first two diagonal
      entries. */
  method PutDiagonalExample(pi: real) returns (dense: Result<seq<seq<real>>>)
    ensures dense == Ok([[10.0, 0.0, 0.0], [0.0, 3.0, 0.0], [0.0, 0.0, pi]])
  {
    var l := new PETScMatrix.FromShape(3, 3, None);
    var _ := l.PutDiagonal(Values([3.0, 10.0, pi]));
    var _ := l.PutDiagonal(Values([10.0, 3.0]));
    dense := ReadDense(l, [[10.0, 0.0, 0.0], [0.0, 3.0, 0.0], [0.0, 0.0, pi]]);
  }

  /** `_PETScIdentityMatrix(size=3)` has ones on its diagonal and nothing else. */
  method IdentityExample() returns (dense: Result<seq<seq<real>>>)
    ensures dense == Ok([[1.0, 0.0, 0.0], [0.0, 1.0, 0.0], [0.0, 0.0, 1.0]])
  {
    var l := new PETScMatrix.Identity(3);
    dense := ReadDense(l, [[1.0, 0.0, 0.0], [0.0, 1.0, 0.0], [0.0, 0.0, 1.0]]);
  }

  /** `_PETScIdentityMeshMatrix` of a mesh of three cells is the 3-by-3 identity. */
  method IdentityMeshExample() returns (dense: Result<seq<seq<real>>>)
    ensures dense == Ok([[1.0, 0.0, 0.0], [0.0, 1.0, 0.0], [0.0, 0.0, 1.0]])
  {
    var l := new PETScMatrix.IdentityMesh(Mesh(3));
    dense := ReadDense(l, [[1.0, 0.0, 0.0], [0.0, 1.0, 0.0], [0.0, 0.0, 1.0]]);
  }

  /** `L + _PETScIdentityMatrix(size=3)` adds one along the diagonal. */
  method AddIdentityExample(pi: real) returns (sum: Result<seq<seq<real>>>)
    ensures sum == Ok([[1.0, 10.0, 3.0], [0.0, pi + 1.0, 0.0], [2.5, 0.0, 1.0]])
  {
    var l := PutExampleMatrix(pi);
    var id := new PETScMatrix.Identity(3);
    var m := AddFactors(pi, l, id);
    sum := ReadDense(m, [[1.0, 10.0, 3.0], [0.0, pi + 1.0, 0.0], [2.5, 0.0, 1.0]]);
  }

  /** `L + I` for the example matrix and the 3-by-3 identity. */
  method AddFactors(pi: real, l: PETScMatrix, id: PETScMatrix) returns (m: PETScMatrix)
    requires l != id && l.Valid() && id.Valid() && l.held && id.held && l.mesh == None
    requires l.matrix.rows == 3 && l.matrix.cols == 3 && id.matrix.rows == 3 && id.matrix.cols == 3
    requires forall r, c :: Entry(l.matrix.entries, r, c) == DenseEntry([[0.0, 10.0, 3.0], [0.0, pi, 0.0], [2.5, 0.0, 0.0]], r, c)
    requires forall r, c :: Entry(id.matrix.entries, r, c) == Entry(IdentityEntries(3), r, c)
    modifies l`matrix, id`matrix
    ensures fresh(m) && m.Valid() && m.held && m.matrix.rows == 3 && m.matrix.cols == 3
    ensures forall r, c :: 0 <= r < 3 && 0 <= c < 3 ==>
      Entry(m.matrix.entries, r, c) == DenseEntry([[1.0, 10.0, 3.0], [0.0, pi + 1.0, 0.0], [2.5, 0.0, 1.0]], r, c)
  {
    var s := l.Add(Matrix(id));
    m := s.value;
    SumWithIdentityTable(pi, l.matrix.entries, id.matrix.entries, m.matrix.entries);
  }

  lemma SumWithIdentityTable(pi: real, a: Entries, b: Entries, sum: Entries)
    requires forall r, c :: Entry(a, r, c) == DenseEntry([[0.0, 10.0, 3.0], [0.0, pi, 0.0], [2.5, 0.0, 0.0]], r, c)
    requires forall r, c :: Entry(b, r, c) == Entry(IdentityEntries(3), r, c)
    requires forall r, c :: Entry(sum, r, c) == Entry(a, r, c) + Entry(b, r, c)
    ensures forall r, c :: 0 <= r < 3 && 0 <= c < 3 ==>
      Entry(sum, r, c) == DenseEntry([[1.0, 10.0, 3.0], [0.0, pi + 1.0, 0.0], [2.5, 0.0, 1.0]], r, c)
  {
  }

  /** `L + 0` is `L` itself, and `L + 3` fails reading `matrix` from an int. */
  method AddNumberExample(pi: real) returns (same: bool, bad: Result<PETScMatrix>)
    ensures same
    ensures bad == Err(AttributeError)
  {
    var l := PutExampleMatrix(pi);
    var z := l.Add(Number(0.0));
    same := z == Ok(l);
    bad := l.Add(Number(3.0));
  }

  /** The three-term expansions of the row, column and inner products. */
  lemma Expand3(a: Entries, b: Entries, x: seq<real>, r: int, c: int)
    requires |x| == 3
    ensures RowDot(a, r, x, 3) == Entry(a, r, 0) * x[0] + Entry(a, r, 1) * x[1] + Entry(a, r, 2) * x[2]
    ensures ColDot(a, c, x, 3) == Entry(a, 0, c) * x[0] + Entry(a, 1, c) * x[1] + Entry(a, 2, c) * x[2]
    ensures Dot(a, b, r, c, 3)
         == Entry(a, r, 0) * Entry(b, 0, c) + Entry(a, r, 1) * Entry(b, 1, c) + Entry(a, r, 2) * Entry(b, 2, c)
  {
    assert RowDot(a, r, x, 1) == Entry(a, r, 0) * x[0];
    assert ColDot(a, c, x, 1) == Entry(a, 0, c) * x[0];
    assert Dot(a, b, r, c, 1) == Entry(a, r, 0) * Entry(b, 0, c);
  }

  /** `L * (1, 2, 3)` and `(1, 2, 3) * L` for the `put` example's matrix L:
      `L` against the vector, and the transpose of `L` against it. */
  method MulVectorExample(pi: real) returns (y: Result<MulResult>, z: Result<MulResult>)
    ensures y == Ok(VectorResult([29.0, 2.0 * pi, 2.5]))
    ensures z == Ok(VectorResult([7.5, 10.0 + 2.0 * pi, 3.0]))
  {
    var l := PutExampleMatrix(pi);
    var x := [1.0, 2.0, 3.0];
    y := l.Mul(Array(x));
    z := l.RMul(Array(x));
    Expand3(l.matrix.entries, map[], x, 0, 0);
    Expand3(l.matrix.entries, map[], x, 1, 1);
    Expand3(l.matrix.entries, map[], x, 2, 2);
    ThreeOf(y.value.v, 29.0, 2.0 * pi, 2.5);
    ThreeOf(z.value.v, 7.5, 10.0 + 2.0 * pi, 3.0);
  }

  /** The second factor of the product example: the 3-by-3 identity, then
      `put([4.38], [2], [1])`, then `put([4.38, 12357.2, 1.1], [2, 1, 0], [1, 0, 2])`. */
  method SecondFactor() returns (l: PETScMatrix)
    ensures fresh(l) && l.Valid() && l.held && l.mesh == None
    ensures l.matrix.rows == 3 && l.matrix.cols == 3
    ensures forall r, c :: Entry(l.matrix.entries, r, c) == DenseEntry([[1.0, 0.0, 1.1], [12357.2, 1.0, 0.0], [0.0, 4.38, 1.0]], r, c)
  {
    l := new PETScMatrix.Identity(3);
    PutTwiceOnIdentity(l, [4.38], [2], [1], [4.38, 12357.2, 1.1], [2, 1, 0], [1, 0, 2]);
  }

  /** The two `put` calls of the second factor, over sequences given by name. */
  method PutTwiceOnIdentity(l: PETScMatrix, v1: seq<real>, a1: seq<int>, b1: seq<int>,
                            v2: seq<real>, a2: seq<int>, b2: seq<int>)
    requires v1 == [4.38] && a1 == [2] && b1 == [1]
    requires v2 == [4.38, 12357.2, 1.1] && a2 == [2, 1, 0] && b2 == [1, 0, 2]
    requires l.Valid() && l.held && l.matrix.rows == 3 && l.matrix.cols == 3
    requires forall r, c :: Entry(l.matrix.entries, r, c) == Entry(IdentityEntries(3), r, c)
    modifies l`matrix
    ensures l.Valid() && l.matrix.rows == 3 && l.matrix.cols == 3
    ensures forall r, c :: Entry(l.matrix.entries, r, c) == DenseEntry([[1.0, 0.0, 1.1], [12357.2, 1.0, 0.0], [0.0, 4.38, 1.0]], r, c)
  {
    ghost var e0 := l.matrix.entries;
    assert DistinctPairs(a1, b1) && PairsInShape(a1, b1, 3, 3);
    PutDistinct(l, v1, a1, b1);
    ghost var e1 := l.matrix.entries;
    assert DistinctPairs(a2, b2) && PairsInShape(a2, b2, 3, 3);
    PutDistinct(l, v2, a2, b2);
    SecondFactorTable(v1, a1, b1, v2, a2, b2, e0, e1, l.matrix.entries);
  }

  /** A `put` at distinct positions of a 3-by-3 matrix, seen entry by entry. */
  method PutDistinct(l: PETScMatrix, vector: seq<real>, id1: seq<int>, id2: seq<int>)
    requires l.Valid() && l.held && l.matrix.rows == 3 && l.matrix.cols == 3
    requires |id1| == |id2| <= |vector| && DistinctPairs(id1, id2) && PairsInShape(id1, id2, 3, 3)
    modifies l`matrix
    ensures l.Valid() && l.held && l.matrix.rows == 3 && l.matrix.cols == 3
    ensures forall n :: 0 <= n < |id1| ==> Entry(l.matrix.entries, id1[n], id2[n]) == vector[n]
    ensures forall r, c :: !Targets(id1, id2, r, c) ==> Entry(l.matrix.entries, r, c) == Entry(old(l.matrix.entries), r, c)
  {
    var _ := l.Put(vector, id1, id2);
  }

  lemma SecondFactorTable(v1: seq<real>, a1: seq<int>, b1: seq<int>, v2: seq<real>, a2: seq<int>, b2: seq<int>,
                          e0: Entries, e1: Entries, e2: Entries)
    requires v1 == [4.38] && a1 == [2] && b1 == [1]
    requires v2 == [4.38, 12357.2, 1.1] && a2 == [2, 1, 0] && b2 == [1, 0, 2]
    requires forall r, c :: Entry(e0, r, c) == Entry(IdentityEntries(3), r, c)
    requires forall n :: 0 <= n < |a1| ==> Entry(e1, a1[n], b1[n]) == v1[n]
    requires forall r, c :: !Targets(a1, b1, r, c) ==> Entry(e1, r, c) == Entry(e0, r, c)
    requires forall n :: 0 <= n < |a2| ==> Entry(e2, a2[n], b2[n]) == v2[n]
    requires forall r, c :: !Targets(a2, b2, r, c) ==> Entry(e2, r, c) == Entry(e1, r, c)
    ensures forall r, c :: Entry(e2, r, c) == DenseEntry([[1.0, 0.0, 1.1], [12357.2, 1.0, 0.0], [0.0, 4.38, 1.0]], r, c)
  {
    forall r, c ensures Entry(e2, r, c) == DenseEntry([[1.0, 0.0, 1.1], [12357.2, 1.0, 0.0], [0.0, 4.38, 1.0]], r, c) {
      if (r, c) == (2, 1) {
        assert Entry(e2, a2[0], b2[0]) == v2[0];
      } else if (r, c) == (1, 0) {
        assert Entry(e2, a2[1], b2[1]) == v2[1];
      } else if (r, c) == (0, 2) {
        assert Entry(e2, a2[2], b2[2]) == v2[2];
      } else {
        assert !Targets(a2, b2, r, c);
        assert !Targets(a1, b1, r, c);
      }
    }
  }

  /** `L1 * L2` for the `put` example's matrix L1 and the second factor L2:
      each entry is the row of L1 against the column of L2. */
  method MatMulExample(pi: real) returns (dense: Result<seq<seq<real>>>)
    ensures dense == Ok([[123572.0, 23.14, 3.0], [12357.2 * pi, pi, 0.0], [2.5, 0.0, 2.75]])
  {
    var l1 := PutExampleMatrix(pi);
    var l2 := SecondFactor();
    var m := MultiplyFactors(pi, l1, l2);
    dense := ReadDense(m, [[123572.0, 23.14, 3.0], [12357.2 * pi, pi, 0.0], [2.5, 0.0, 2.75]]);
  }

  /** The `__mul__` call of the product example. */
  method MultiplyFactors(pi: real, l1: PETScMatrix, l2: PETScMatrix) returns (m: PETScMatrix)
    requires l1 != l2 && l1.Valid() && l2.Valid() && l1.held && l2.held && l1.mesh == None
    requires l1.matrix.rows == 3 && l1.matrix.cols == 3 && l2.matrix.rows == 3 && l2.matrix.cols == 3
    requires forall r, c :: Entry(l1.matrix.entries, r, c) == DenseEntry([[0.0, 10.0, 3.0], [0.0, pi, 0.0], [2.5, 0.0, 0.0]], r, c)
    requires forall r, c :: Entry(l2.matrix.entries, r, c) == DenseEntry([[1.0, 0.0, 1.1], [12357.2, 1.0, 0.0], [0.0, 4.38, 1.0]], r, c)
    modifies l1`matrix, l2`matrix
    ensures fresh(m) && m.Valid() && m.held && m.matrix.rows == 3 && m.matrix.cols == 3
    ensures forall r, c :: 0 <= r < 3 && 0 <= c < 3 ==>
      Entry(m.matrix.entries, r, c) == DenseEntry([[123572.0, 23.14, 3.0], [12357.2 * pi, pi, 0.0], [2.5, 0.0, 2.75]], r, c)
  {
    ProductOfFactors(pi, l1.matrix.entries, l2.matrix.entries);
    var p := l1.Mul(Matrix(l2));
    m := p.value.m;
  }

  lemma ProductOfFactors(pi: real, a: Entries, b: Entries)
    requires forall r, c :: Entry(a, r, c) == DenseEntry([[0.0, 10.0, 3.0], [0.0, pi, 0.0], [2.5, 0.0, 0.0]], r, c)
    requires forall r, c :: Entry(b, r, c) == DenseEntry([[1.0, 0.0, 1.1], [12357.2, 1.0, 0.0], [0.0, 4.38, 1.0]], r, c)
    ensures forall r, c :: 0 <= r < 3 && 0 <= c < 3 ==>
      Dot(a, b, r, c, 3) == DenseEntry([[123572.0, 23.14, 3.0], [12357.2 * pi, pi, 0.0], [2.5, 0.0, 2.75]], r, c)
  {
    forall r, c | 0 <= r < 3 && 0 <= c < 3
      ensures Dot(a, b, r, c, 3) == DenseEntry([[123572.0, 23.14, 3.0], [12357.2 * pi, pi, 0.0], [2.5, 0.0, 2.75]], r, c)
    {
      Expand3(a, b, [0.0, 0.0, 0.0], r, c);
    }
  }

  /** A mesh matrix of four cells with two variables and three equations is
      12-by-8; `flush` deletes its matrix, after which writing to it and
      flushing it again both fail. */
  method MeshFlushExample() returns (rows: nat, cols: nat, first: Option<Error>, write: Option<Error>, second: Option<Error>)
    ensures rows == 12 && cols == 8
    ensures first == None && write == Some(AttributeError) && second == Some(AttributeError)
  {
    var m := new PETScMatrix.MeshMatrix(Mesh(4), 2, 3, None);
    rows, cols := m.matrix.rows, m.matrix.cols;
    first := m.Flush();
    write := m.Put([1.0], [0], [0]);
    second := m.Flush();
  }

  /** With `cache` set, `flush` keeps the matrix, and it can still be written. */
  method CachedFlushExample() returns (flushed: Option<Error>, write: Option<Error>)
    ensures flushed == None && write == None
  {
    var m := new PETScMatrix.MeshMatrix(Mesh(2), 1, 1, None);
    m.cache := true;
    flushed := m.Flush();
    assert PairsInShape([1], [0], 2, 2);
    write := m.Put([1.0], [1], [0]);
  }

  /** `put` and `addAt` with fewer values than index pairs fail at `v[ix]`
      with IndexError, and ids of unequal lengths fail in `lexsort` with
      ValueError; the matrix is left as it was. */
  method ShortVectorExample() returns (put: Option<Error>, add: Option<Error>, ragged: Option<Error>, kept: bool)
    ensures put == Some(IndexError) && add == Some(IndexError) && ragged == Some(ValueError) && kept
  {
    var l := new PETScMatrix.FromShape(3, 3, None);
    var before := l.matrix;
    put := l.Put([1.0], [0, 1], [0, 1]);
    add := l.AddAt([], [2], [2]);
    ragged := l.Put([1.0, 2.0], [0, 1], [0]);
    kept := l.matrix == before;
  }

  /** The product of two mesh matrices is a mesh matrix on the left factor's
      mesh; with anything else it is a plain matrix. */
  method MeshProductExample() returns (meshOfProduct: Option<Mesh>, meshOfScaled: Option<Mesh>)
    ensures meshOfProduct == Some(Mesh(2)) && meshOfScaled == None
  {
    var a := new PETScMatrix.MeshMatrix(Mesh(2), 1, 1, None);
    var b := new PETScMatrix.MeshMatrix(Mesh(2), 1, 1, None);
    var p := a.Mul(Matrix(b));
    meshOfProduct := p.value.m.mesh;
    var q := a.Mul(Number(2.0));
    meshOfScaled := q.value.m.mesh;
  }

  /** The `_test` example stores exactly three entries, the explicit zero at
      (2, 2) included; read row by row they are the arrays it expects back
      from `getValuesCSR`. */
  method StoredTestExample() returns (l: PETScMatrix)
    ensures l.Valid() && l.matrix.rows == 3 && l.matrix.cols == 3
    ensures l.matrix.entries == map[(0, 1) := 1.0, (1, 0) := 2.0, (2, 2) := 0.0]
  {
    l := new PETScMatrix.FromShape(3, 3, None);
    AddOnEmpty(l, [1.0, 0.0, 2.0], [0, 2, 1], [1, 2, 0]);
  }

  /** The `addAt` of the `_test` example, over sequences given by name. */
  method AddOnEmpty(l: PETScMatrix, vector: seq<real>, id1: seq<int>, id2: seq<int>)
    requires vector == [1.0, 0.0, 2.0] && id1 == [0, 2, 1] && id2 == [1, 2, 0]
    requires l.Valid() && l.held && l.matrix == Mat(3, 3, map[], false)
    modifies l`matrix
    ensures l.Valid() && l.matrix.rows == 3 && l.matrix.cols == 3
    ensures l.matrix.entries == map[(0, 1) := 1.0, (1, 0) := 2.0, (2, 2) := 0.0]
  {
    assert PairsInShape(id1, id2, 3, 3);
    SetValuesIjvKeys(map[], 3, 3, vector, id1, id2, AddValues);
    var _ := l.AddAt(vector, id1, id2);
    TestExampleEntries(map[], l.matrix.entries, vector, id1, id2);
  }

  /** The only entries the `_test` triplets leave behind, and their sums. */
  lemma TestExampleEntries(e0: Entries, e: Entries, vector: seq<real>, id1: seq<int>, id2: seq<int>)
    requires vector == [1.0, 0.0, 2.0] && id1 == [0, 2, 1] && id2 == [1, 2, 0] && e0 == map[]
    requires forall r, c :: (r, c) in e <==> (r, c) in e0 || Targets(id1, id2, r, c)
    requires forall r, c :: Entry(e, r, c) == Entry(e0, r, c) + KeySum(Triplets(id1, id2, vector), r, c)
    ensures e == map[(0, 1) := 1.0, (1, 0) := 2.0, (2, 2) := 0.0]
  {
    var want := map[(0, 1) := 1.0, (1, 0) := 2.0, (2, 2) := 0.0];
    forall k: (int, int) ensures k in e <==> k in want {
      var (r, c) := k;
      assert k in e <==> Targets(id1, id2, r, c);
      if k in want {
        assert (id1[0] == r && id2[0] == c) || (id1[1] == r && id2[1] == c) || (id1[2] == r && id2[2] == c);
      }
    }
    assert e.Keys == want.Keys;
    forall k | k in e ensures e[k] == want[k] {
      TestExampleSums(vector, id1, id2, k.0, k.1);
      assert Entry(e, k.0, k.1) == e[k];
    }
  }

  lemma TestExampleSums(vector: seq<real>, id1: seq<int>, id2: seq<int>, r: int, c: int)
    requires vector == [1.0, 0.0, 2.0] && id1 == [0, 2, 1] && id2 == [1, 2, 0]
    ensures KeySum(Triplets(id1, id2, vector), r, c)
         == if (r, c) == (0, 1) then 1.0 else if (r, c) == (1, 0) then 2.0 else 0.0
  {
    var ts := Triplets(id1, id2, vector);
    assert ts == [Triplet(0, 1, 1.0), Triplet(2, 2, 0.0), Triplet(1, 0, 2.0)];
    assert ts[1..][1..][1..] == [];
    assert KeySum(ts[1..][1..][1..], r, c) == 0.0;
    assert KeySum(ts[1..][1..], r, c) == if (r, c) == (1, 0) then 2.0 else 0.0;
  }
}
