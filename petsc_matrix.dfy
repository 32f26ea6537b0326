/** The wrapper `_PETScMatrix` around a PETSc matrix, and its subclasses
    `_PETScMatrixFromShape`, `_PETScMeshMatrix`, `_PETScIdentityMatrix` and
    `_PETScIdentityMeshMatrix`, as one class whose `mesh` field tells a mesh
    matrix from the others. */
module PETScMatrices {
  import opened Outcomes
  import opened Csr
  import opened MatStore

  /** Only a mesh's cell count sizes the matrices built for it. */
  datatype Mesh = Mesh(numberOfCells: nat)

  /** An operand of `+`, `-` and `*`. */
  datatype Operand =
    | Number(x: real)         // a Python int or float
    | Array(v: seq<real>)     // a one-dimensional numpy array
    | List(v: seq<real>)      // a Python list of numbers
    | Matrix(m: PETScMatrix)  // another wrapper

  /** The argument of `putDiagonal` and `addAtDiagonal`: an int or float, or a vector. */
  datatype Diagonal = Scalar(x: real) | Values(v: seq<real>)

  /** What `*` returns: a new wrapper or a numpy vector. */
  datatype MulResult = MatrixResult(m: PETScMatrix) | VectorResult(v: seq<real>)

  /** What `*` computes, as values: the new wrapper's matrix and mesh, or the vector. */
  datatype MulValue = MatrixValue(mat: Mat, mesh: Option<Mesh>) | VectorValue(v: seq<real>)

  // ---------------------------------------------------------------------------
  // Python's truth tests on an operand
  // ---------------------------------------------------------------------------

  /** The truth value of `other == 0`: numpy compares an array elementwise and
      refuses the truth value of more than one element; a list or a wrapper is
      never equal to 0. */
  function EqualsZero(other: Operand): Result<bool>
  {
    match other
    case Number(x) => Ok(x == 0.0)
    case Array(v) => if |v| == 0 then Ok(false) else if |v| == 1 then Ok(v[0] == 0.0) else Err(ValueError)
    case List(_) => Ok(false)
    case Matrix(_) => Ok(false)
  }

  /** The truth value of `other != 0`, as `__iadd__` and `__isub__` test it. */
  function DiffersFromZero(other: Operand): Result<bool>
  {
    match other
    case Number(x) => Ok(x != 0.0)
    case Array(v) => if |v| == 0 then Ok(false) else if |v| == 1 then Ok(v[0] != 0.0) else Err(ValueError)
    case List(_) => Ok(true)
    case Matrix(_) => Ok(true)
  }

  /** The two tests fail together, and they are each other's negation except
      on an empty array, which both find false: `A + empty` goes on to fail
      while `A += empty` leaves A alone. */
  lemma ZeroTestsAgree(other: Operand)
    ensures EqualsZero(other).Err? <==> DiffersFromZero(other).Err?
    ensures EqualsZero(other).Err? ==> EqualsZero(other).error == ValueError
    ensures EqualsZero(other).Ok? ==>
      (DiffersFromZero(other).value == !EqualsZero(other).value <==> !(other.Array? && |other.v| == 0))
  {
  }

  // ---------------------------------------------------------------------------
  // Reading the state of an operand
  // ---------------------------------------------------------------------------

  function MatrixOf(o: Operand): set<PETScMatrix>
  {
    if o.Matrix? then {o.m} else {}
  }

  predicate OperandValid(o: Operand)
    reads MatrixOf(o)
  {
    o.Matrix? ==> o.m.Valid()
  }

  /** Whether the operand is a wrapper that still holds its matrix. */
  predicate HeldOf(o: Operand)
    reads MatrixOf(o)
  {
    o.Matrix? && o.m.held
  }

  function MatOf(o: Operand): Mat
    reads MatrixOf(o)
  {
    if o.Matrix? then o.m.matrix else Mat(0, 0, map[], false)
  }

  function MeshOf(o: Operand): Option<Mesh>
    reads MatrixOf(o)
  {
    if o.Matrix? then o.m.mesh else None
  }

  /** `assemblyBegin(); assemblyEnd()`: the entries stay, the matrix becomes assembled. */
  function Assembled(m: Mat): Mat
  {
    m.(assembled := true)
  }

  // ---------------------------------------------------------------------------
  // What the operators compute, from the state before the call
  // ---------------------------------------------------------------------------

  /** `self.matrix + other.matrix` (or `-`) once `other == 0` was found false:
      `self.matrix` is read first, then `other.matrix`, then PETSc combines
      the assembled matrices. */
  function Combined(selfHeld: bool, a: Mat, other: Operand, otherHeld: bool, b: Mat, subtract: bool): (r: Result<Mat>)
    ensures r.Ok? <==> selfHeld && other.Matrix? && otherHeld && a.rows == b.rows && a.cols == b.cols
    ensures r.Err? ==> r.error == if selfHeld && other.Matrix? && otherHeld then SizeMismatch else AttributeError
    ensures r.Ok? ==> (r.value.rows == a.rows && r.value.cols == a.cols && r.value.assembled
      && forall i, j :: Entry(r.value.entries, i, j)
                     == if subtract then Entry(a.entries, i, j) - Entry(b.entries, i, j)
                        else Entry(a.entries, i, j) + Entry(b.entries, i, j))
    ensures r.Ok? && WellShaped(a) && WellShaped(b) ==> WellShaped(r.value)
  {
    if !selfHeld || !other.Matrix? || !otherHeld then Err(AttributeError)
    else if subtract then SubMat(Assembled(a), Assembled(b))
    else AddMat(Assembled(a), Assembled(b))
  }

  /** `self * v` for a vector `v`: one of length `cols` goes through PETSc's
      `mult` with both work vectors of length `cols`; any other length is a
      `TypeError`. */
  function VectorOutcome(a: Mat, v: seq<real>): (r: Result<MulValue>)
    ensures r.Ok? <==> |v| == a.cols && a.rows == a.cols
    ensures r.Err? ==> r.error == if |v| == a.cols then SizeMismatch else TypeError
    ensures r.Ok? ==> (r.value.VectorValue? && |r.value.v| == a.rows
      && forall i :: 0 <= i < a.rows ==> r.value.v[i] == RowDot(a.entries, i, v, a.cols))
  {
    if |v| != a.cols then Err(TypeError)
    else match Mult(Assembled(a), v, a.cols)
      case Err(e) => Err(e)
      case Ok(y) => Ok(VectorValue(y))
  }

  /** `self * other` (`__mul__` of `_PETScMatrix`, and of `_PETScMeshMatrix`
      for a mesh matrix). */
  function MulOutcome(selfHeld: bool, a: Mat, selfMesh: Option<Mesh>,
                      other: Operand, otherHeld: bool, b: Mat, otherMesh: Option<Mesh>): (r: Result<MulValue>)
    ensures !selfHeld ==> r == Err(AttributeError)
    ensures selfHeld && other.Matrix? ==>
      (r.Ok? <==> otherHeld && a.cols == b.rows)
      && (r.Err? ==> r.error == if otherHeld then SizeMismatch else AttributeError)
      && (r.Ok? ==> r.value.MatrixValue? && r.value.mat.rows == a.rows && r.value.mat.cols == b.cols
                    && (r.value.mesh.Some? <==> selfMesh.Some? && otherMesh.Some?)
                    && (r.value.mesh.Some? ==> r.value.mesh == selfMesh))
    ensures selfHeld && other.Number? ==>
      r.Ok? && r.value.MatrixValue? && r.value.mesh == None
      && r.value.mat.rows == a.rows && r.value.mat.cols == a.cols
      && forall i, j :: Entry(r.value.mat.entries, i, j) == other.x * Entry(a.entries, i, j)
    ensures selfHeld && (other.Array? || other.List?) ==>
      (r.Ok? ==> r.value.VectorValue? && |r.value.v| == a.rows)
      && (|other.v| != a.cols ==> r == Err(TypeError))
  {
    if !selfHeld then Err(AttributeError)
    else match other
      case Matrix(_) =>
        if !otherHeld then Err(AttributeError)
        else (match MatMult(Assembled(a), Assembled(b))
          case Err(e) => Err(e)
          case Ok(p) => Ok(MatrixValue(p, if selfMesh.Some? && otherMesh.Some? then selfMesh else None)))
      case Number(x) => Ok(MatrixValue(ScaleMat(a, x), None))
      case Array(v) => VectorOutcome(a, v)
      case List(v) => VectorOutcome(a, v)
  }

  /** The result handed back is the value computed: a new wrapper holding the
      computed matrix (a mesh matrix with one variable and one equation when
      a mesh is set), or the computed vector. */
  predicate Delivers(r: Result<MulResult>, out: Result<MulValue>)
    reads if r.Ok? && r.value.MatrixResult? then {r.value.m} else {}
  {
    match r
    case Err(e) => out == Err(e)
    case Ok(VectorResult(y)) => out == Ok(VectorValue(y))
    case Ok(MatrixResult(m)) =>
      out.Ok? && out.value.MatrixValue? && m.held && !m.cache
      && m.matrix == out.value.mat && m.mesh == out.value.mesh
      && (m.mesh.Some? ==> m.numberOfVariables == 1 && m.numberOfEquations == 1)
  }

  // ---------------------------------------------------------------------------
  // Index helpers for the diagonal and dense forms
  // ---------------------------------------------------------------------------

  /** The exception `put` and `addAt` raise before anything is written: the
      deleted `matrix` is read first, then `lexsort` refuses keys of unequal
      lengths, then `v[ix]` indexes past the end of a short `vector`. */
  function IjvError(held: bool, vector: seq<real>, id1: seq<int>, id2: seq<int>): (err: Option<Error>)
    ensures err == None <==> held && |id1| == |id2| <= |vector|
    ensures !held ==> err == Some(AttributeError)
  {
    if !held then Some(AttributeError)
    else if |id1| != |id2| then Some(ValueError)
    else if |vector| < |id1| then Some(IndexError)
    else None
  }

  lemma IdsTargets(n: nat, r: int, c: int)
    ensures Targets(Range(n), Range(n), r, c) <==> r == c && 0 <= r < n
  {
    if r == c && 0 <= r < n {
      assert Range(n)[r] == r;
    }
  }

  /** How many diagonal entries the argument writes: all `rows` for a scalar,
      as many as the vector has otherwise. */
  function DiagonalLength(d: Diagonal, rows: nat): nat
  {
    if d.Scalar? then rows else |d.v|
  }

  /** The vector written along the diagonal: a scalar is broadcast to `rows` copies. */
  function DiagonalVector(d: Diagonal, rows: nat): (v: seq<real>)
    ensures |v| == DiagonalLength(d, rows)
  {
    if d.Scalar? then seq(rows, _ => d.x) else d.v
  }

  /** The value `take` reads at each positional pair of `zip(id1, id2)`. */
  function Zipped(e: Entries, id1: seq<int>, id2: seq<int>): seq<real>
  {
    var n := if |id1| <= |id2| then |id1| else |id2|;
    seq(n, k requires 0 <= k < n => Entry(e, id1[k], id2[k]))
  }

  /** `numerix.indices((rows, cols))[0].ravel()`: the row of each position of a
      row-major grid. */
  function GridRows(rows: nat, cols: nat): seq<int>
  {
    seq(rows * cols, p requires 0 <= p < rows * cols => if cols == 0 then 0 else p / cols)
  }

  /** `numerix.indices((rows, cols))[1].ravel()`: the column of each position. */
  function GridCols(rows: nat, cols: nat): seq<int>
  {
    seq(rows * cols, p requires 0 <= p < rows * cols => if cols == 0 then 0 else p % cols)
  }

  lemma RowEndInGrid(i: nat, rows: nat, cols: nat)
    requires i < rows
    ensures i * cols + cols <= rows * cols
  {
    assert (i + 1) * cols <= rows * cols;
  }

  /** `numerix.reshape(flat, (rows, cols))` in row-major order. */
  function Reshape(flat: seq<real>, rows: nat, cols: nat): (m: seq<seq<real>>)
    requires |flat| == rows * cols
  {
    assert forall i :: 0 <= i < rows ==> i * cols + cols <= |flat| by {
      forall i | 0 <= i < rows ensures i * cols + cols <= |flat| {
        RowEndInGrid(i, rows, cols);
      }
    }
    seq(rows, i requires 0 <= i < rows => flat[i * cols .. i * cols + cols])
  }

  lemma GridPosition(i: nat, j: nat, rows: nat, cols: nat)
    requires i < rows && j < cols
    ensures i * cols + j < rows * cols
    ensures (i * cols + j) / cols == i && (i * cols + j) % cols == j
  {
    RowEndInGrid(i, rows, cols);
    DivModUnique(i * cols + j, cols, i, j);
  }

  /** Euclidean division has one quotient and one remainder. */
  lemma DivModUnique(p: int, d: int, q: int, s: int)
    requires d > 0 && 0 <= s < d && p == q * d + s
    ensures p / d == q && p % d == s
  {
    var q', s' := p / d, p % d;
    assert (q' - q) * d == s - s' by {
      assert q' * d + s' == q * d + s;
    }
    if q' > q {
      MultipleAtLeast(q' - q, d);
    } else if q' < q {
      MultipleAtLeast(q - q', d);
    }
  }

  lemma MultipleAtLeast(k: int, d: int)
    requires k >= 1 && d > 0
    ensures k * d >= d
  {
  }

  /** The dense array `numpyArray` builds is the matrix, entry by entry. */
  lemma NumpyArrayIsDense(e: Entries, rows: nat, cols: nat)
    ensures |GridRows(rows, cols)| == |GridCols(rows, cols)| == rows * cols
    ensures var dense := Reshape(Zipped(e, GridRows(rows, cols), GridCols(rows, cols)), rows, cols);
      |dense| == rows
      && forall i :: 0 <= i < rows ==> (|dense[i]| == cols
           && forall j :: 0 <= j < cols ==> dense[i][j] == Entry(e, i, j))
  {
    var flat := Zipped(e, GridRows(rows, cols), GridCols(rows, cols));
    var dense := Reshape(flat, rows, cols);
    forall i | 0 <= i < rows
      ensures |dense[i]| == cols && forall j :: 0 <= j < cols ==> dense[i][j] == Entry(e, i, j)
    {
      RowEndInGrid(i, rows, cols);
      forall j | 0 <= j < cols ensures dense[i][j] == Entry(e, i, j) {
        GridPosition(i, j, rows, cols);
        assert dense[i][j] == flat[i * cols + j];
      }
    }
  }

  // ---------------------------------------------------------------------------
  // The wrapper
  // ---------------------------------------------------------------------------

  class PETScMatrix {
    /** The wrapped PETSc matrix; meaningless once `held` is false. */
    var matrix: Mat
    /** False once `flush` has deleted `matrix`. */
    var held: bool
    /** The mesh of a `_PETScMeshMatrix`; None for every other wrapper. */
    var mesh: Option<Mesh>
    /** A mesh matrix's variable and equation counts. */
    var numberOfVariables: nat
    var numberOfEquations: nat
    /** The `cache` attribute other code may set on a mesh matrix (absent reads as false). */
    var cache: bool

    predicate Valid()
      reads this
    {
      WellShaped(matrix)
    }

    /** `_PETScMatrix(matrix)`: wraps an existing PETSc matrix. */
    constructor (m: Mat)
      requires WellShaped(m)
      ensures Valid() && matrix == m && held && mesh == None && !cache
    {
      matrix, held, mesh := m, true, None;
      numberOfVariables, numberOfEquations, cache := 1, 1, false;
    }

    /** `_PETScMatrixFromShape(rows, cols, matrix=given)`: a new, empty,
        unassembled rows-by-cols matrix, or `given` as it is. */
    constructor FromShape(rows: nat, cols: nat, given: Option<Mat>)
      requires given.Some? ==> WellShaped(given.value)
      ensures Valid() && held && mesh == None && !cache
      ensures matrix == if given.Some? then given.value else Mat(rows, cols, map[], false)
    {
      matrix := if given.Some? then given.value else Mat(rows, cols, map[], false);
      held, mesh := true, None;
      numberOfVariables, numberOfEquations, cache := 1, 1, false;
    }

    /** `_PETScMeshMatrix(mesh, matrix=given, numberOfVariables, numberOfEquations)`:
        numberOfEquations rows and numberOfVariables columns per cell. */
    constructor MeshMatrix(mesh: Mesh, numberOfVariables: nat, numberOfEquations: nat, given: Option<Mat>)
      requires given.Some? ==> WellShaped(given.value)
      ensures Valid() && held && this.mesh == Some(mesh) && !cache
      ensures this.numberOfVariables == numberOfVariables && this.numberOfEquations == numberOfEquations
      ensures matrix == if given.Some? then given.value
                        else Mat(numberOfEquations * mesh.numberOfCells, numberOfVariables * mesh.numberOfCells, map[], false)
    {
      this.matrix := if given.Some? then given.value
                     else Mat(numberOfEquations * mesh.numberOfCells, numberOfVariables * mesh.numberOfCells, map[], false);
      this.held, this.mesh := true, Some(mesh);
      this.numberOfVariables, this.numberOfEquations, this.cache := numberOfVariables, numberOfEquations, false;
    }

    /** `_PETScIdentityMatrix(size)`: ones put along the diagonal of a new matrix. */
    constructor Identity(size: nat)
      requires size <= Int32Max
      ensures Valid() && held && mesh == None && !cache
      ensures matrix.rows == size && matrix.cols == size && !matrix.assembled
      ensures forall i, j :: Entry(matrix.entries, i, j) == Entry(IdentityEntries(size), i, j)
    {
      matrix, held, mesh := Mat(size, size, map[], false), true, None;
      numberOfVariables, numberOfEquations, cache := 1, 1, false;
      new;
      var _ := PutDiagonal(Scalar(1.0));
    }

    /** `_PETScIdentityMeshMatrix(mesh)`: the identity of size numberOfCells.
        It is an identity matrix, not a mesh matrix. */
    constructor IdentityMesh(mesh: Mesh)
      requires mesh.numberOfCells <= Int32Max
      ensures Valid() && held && this.mesh == None && !cache
      ensures matrix.rows == mesh.numberOfCells && matrix.cols == mesh.numberOfCells && !matrix.assembled
      ensures forall i, j :: Entry(matrix.entries, i, j) == Entry(IdentityEntries(mesh.numberOfCells), i, j)
    {
      this.matrix, this.held, this.mesh := Mat(mesh.numberOfCells, mesh.numberOfCells, map[], false), true, None;
      numberOfVariables, numberOfEquations, cache := 1, 1, false;
      new;
      var _ := PutDiagonal(Scalar(1.0));
    }

    // Writing

    /** `put(vector, id1, id2)`: setValuesCSR in insert mode of the CSR form of
        the triplets (id1[n], id2[n], vector[n]); with distinct pairs, entry
        (id1[n], id2[n]) becomes vector[n] and nothing else changes. */
    method Put(vector: seq<real>, id1: seq<int>, id2: seq<int>) returns (err: Option<Error>)
      requires Valid()
      requires held && |id1| == |id2| <= |vector| ==> PairsInShape(id1, id2, matrix.rows, matrix.cols)
      modifies this`matrix
      ensures Valid()
      ensures err == IjvError(old(held), vector, id1, id2)
      ensures matrix == if err.Some? then old(matrix)
        else Mat(old(matrix.rows), old(matrix.cols),
                 SetValuesIjv(old(matrix.entries), old(matrix.rows), vector, id1, id2, InsertValues), false)
      ensures err.None? && DistinctPairs(id1, id2) ==>
        (forall n :: 0 <= n < |id1| ==> Entry(matrix.entries, id1[n], id2[n]) == vector[n])
        && forall r, c :: !Targets(id1, id2, r, c) ==> Entry(matrix.entries, r, c) == Entry(old(matrix.entries), r, c)
    {
      err := IjvError(held, vector, id1, id2);
      if err.Some? {
        return;
      }
      var e := matrix.entries;
      SetValuesIjvKeys(e, matrix.rows, matrix.cols, vector, id1, id2, InsertValues);
      if DistinctPairs(id1, id2) {
        PutMeaning(e, matrix.rows, matrix.cols, vector, id1, id2);
      }
      matrix := Mat(matrix.rows, matrix.cols, SetValuesIjv(e, matrix.rows, vector, id1, id2, InsertValues), false);
    }

    /** `addAt(vector, id1, id2)`: setValuesCSR in add mode; every vector[n] is
        added onto entry (id1[n], id2[n]), duplicates included. */
    method AddAt(vector: seq<real>, id1: seq<int>, id2: seq<int>) returns (err: Option<Error>)
      requires Valid()
      requires held && |id1| == |id2| <= |vector| ==> PairsInShape(id1, id2, matrix.rows, matrix.cols)
      modifies this`matrix
      ensures Valid()
      ensures err == IjvError(old(held), vector, id1, id2)
      ensures matrix == if err.Some? then old(matrix)
        else Mat(old(matrix.rows), old(matrix.cols),
                 SetValuesIjv(old(matrix.entries), old(matrix.rows), vector, id1, id2, AddValues), false)
      ensures err.None? ==> forall r, c ::
        Entry(matrix.entries, r, c) == Entry(old(matrix.entries), r, c) + KeySum(Triplets(id1, id2, vector), r, c)
    {
      err := IjvError(held, vector, id1, id2);
      if err.Some? {
        return;
      }
      var e := matrix.entries;
      SetValuesIjvKeys(e, matrix.rows, matrix.cols, vector, id1, id2, AddValues);
      AddAtMeaning(e, matrix.rows, matrix.cols, vector, id1, id2);
      matrix := Mat(matrix.rows, matrix.cols, SetValuesIjv(e, matrix.rows, vector, id1, id2, AddValues), false);
    }

    /** `putDiagonal(d)`: a scalar is put on all `rows` diagonal entries, a
        vector of length k on the first k; the rest is untouched. */
    method PutDiagonal(d: Diagonal) returns (err: Option<Error>)
      requires Valid()
      requires held ==> matrix.rows <= Int32Max && matrix.cols <= Int32Max
                        && DiagonalLength(d, matrix.rows) <= matrix.rows
                        && DiagonalLength(d, matrix.rows) <= matrix.cols
      modifies this`matrix
      ensures Valid()
      ensures err == if old(held) then None else Some(AttributeError)
      ensures !old(held) ==> matrix == old(matrix)
      ensures old(held) ==> matrix.rows == old(matrix.rows) && matrix.cols == old(matrix.cols) && !matrix.assembled
      ensures old(held) ==> forall r, c :: (Entry(matrix.entries, r, c)
        == if r == c && 0 <= r < DiagonalLength(d, old(matrix.rows)) then DiagonalVector(d, old(matrix.rows))[r]
           else Entry(old(matrix.entries), r, c))
    {
      if !held {
        return Some(AttributeError);
      }
      var n := DiagonalLength(d, matrix.rows);
      var ids := Range(n);
      var v := DiagonalVector(d, matrix.rows);
      err := Put(v, ids, ids);
      forall r, c ensures Entry(matrix.entries, r, c)
        == if r == c && 0 <= r < n then v[r] else Entry(old(matrix.entries), r, c)
      {
        IdsTargets(n, r, c);
        if r == c && 0 <= r < n {
          assert ids[r] == r;
        }
      }
    }

    /** `addAtDiagonal(d)`: a scalar is added to all `rows` diagonal entries,
        a vector of length k to the first k; the rest is untouched. */
    method AddAtDiagonal(d: Diagonal) returns (err: Option<Error>)
      requires Valid()
      requires held ==> matrix.rows <= Int32Max && matrix.cols <= Int32Max
                        && DiagonalLength(d, matrix.rows) <= matrix.rows
                        && DiagonalLength(d, matrix.rows) <= matrix.cols
      modifies this`matrix
      ensures Valid()
      ensures err == if old(held) then None else Some(AttributeError)
      ensures !old(held) ==> matrix == old(matrix)
      ensures old(held) ==> matrix.rows == old(matrix.rows) && matrix.cols == old(matrix.cols) && !matrix.assembled
      ensures old(held) ==> forall r, c :: (Entry(matrix.entries, r, c)
        == if r == c && 0 <= r < DiagonalLength(d, old(matrix.rows))
           then Entry(old(matrix.entries), r, c) + DiagonalVector(d, old(matrix.rows))[r]
           else Entry(old(matrix.entries), r, c))
    {
      if !held {
        return Some(AttributeError);
      }
      var n := DiagonalLength(d, matrix.rows);
      var ids := Range(n);
      var v := DiagonalVector(d, matrix.rows);
      err := AddAt(v, ids, ids);
      forall r, c ensures Entry(matrix.entries, r, c)
        == if r == c && 0 <= r < n then Entry(old(matrix.entries), r, c) + v[r] else Entry(old(matrix.entries), r, c)
      {
        KeySumOfIds(v, n, r, c);
      }
    }

    // Reading

    /** `take(id1, id2)`: assembles, then reads one entry per positional pair
        of `zip(id1, id2)`. */
    method Take(id1: seq<int>, id2: seq<int>) returns (r: Result<seq<real>>)
      requires Valid()
      requires held ==> forall n :: 0 <= n < |id1| && n < |id2| ==>
                          0 <= id1[n] < matrix.rows && 0 <= id2[n] < matrix.cols
      modifies this`matrix
      ensures Valid()
      ensures matrix == if old(held) then Assembled(old(matrix)) else old(matrix)
      ensures !old(held) ==> r == Err(AttributeError)
      ensures old(held) ==> (r.Ok? && |r.value| == (if |id1| <= |id2| then |id1| else |id2|)
        && forall n :: 0 <= n < |r.value| ==> r.value[n] == Entry(matrix.entries, id1[n], id2[n]))
    {
      if !held {
        return Err(AttributeError);
      }
      matrix := Assembled(matrix);
      return Ok(Zipped(matrix.entries, id1, id2));
    }

    /** `takeDiagonal()`: `take` of the pairs (k, k) for every row k. */
    method TakeDiagonal() returns (r: Result<seq<real>>)
      requires Valid()
      requires held ==> matrix.rows <= matrix.cols
      modifies this`matrix
      ensures Valid()
      ensures matrix == if old(held) then Assembled(old(matrix)) else old(matrix)
      ensures !old(held) ==> r == Err(AttributeError)
      ensures old(held) ==> (r.Ok? && |r.value| == matrix.rows
        && forall k :: 0 <= k < matrix.rows ==> r.value[k] == Entry(matrix.entries, k, k))
    {
      if !held {
        return Err(AttributeError);
      }
      var ids := Range(matrix.rows);
      r := Take(ids, ids);
    }

    /** `numpyArray`: `take` over the index grid of the shape, reshaped to
        rows-by-cols: every entry, stored or not. */
    method NumpyArray() returns (r: Result<seq<seq<real>>>)
      requires Valid()
      modifies this`matrix
      ensures Valid()
      ensures matrix == if old(held) then Assembled(old(matrix)) else old(matrix)
      ensures !old(held) ==> r == Err(AttributeError)
      ensures old(held) ==> (r.Ok? && |r.value| == matrix.rows
        && forall i :: 0 <= i < matrix.rows ==> (|r.value[i]| == matrix.cols
             && forall j :: 0 <= j < matrix.cols ==> r.value[i][j] == Entry(matrix.entries, i, j)))
    {
      if !held {
        return Err(AttributeError);
      }
      var rows, cols := matrix.rows, matrix.cols;
      NumpyArrayIsDense(matrix.entries, rows, cols);
      forall p | 0 <= p < rows * cols
        ensures 0 <= GridRows(rows, cols)[p] < rows && 0 <= GridCols(rows, cols)[p] < cols
      {
        GridBounds(p, rows, cols);
      }
      var flat := Take(GridRows(rows, cols), GridCols(rows, cols));
      assert flat.value == Zipped(matrix.entries, GridRows(rows, cols), GridCols(rows, cols));
      return Ok(Reshape(flat.value, rows, cols));
    }

    // Arithmetic

    /** `self.matrix` is read and assembled, then `other.matrix`; each read
        fails with AttributeError when the attribute is missing. */
    method AssembleBoth(other: Operand) returns (r: Result<(Mat, Mat)>)
      requires Valid() && OperandValid(other)
      modifies this`matrix, MatrixOf(other)`matrix
      ensures Valid() && OperandValid(other)
      ensures r.Err? <==> !old(held) || !old(HeldOf(other))
      ensures r.Err? ==> r.error == AttributeError
      ensures r.Ok? ==> r.value == (Assembled(old(matrix)), Assembled(old(MatOf(other))))
      ensures matrix == if old(held) then Assembled(old(matrix)) else old(matrix)
      ensures other.Matrix? && other.m != this ==>
        other.m.matrix == if old(held) && old(other.m.held) then Assembled(old(other.m.matrix)) else old(other.m.matrix)
    {
      if !held {
        return Err(AttributeError);
      }
      matrix := Assembled(matrix);
      if !other.Matrix? || !other.m.held {
        return Err(AttributeError);
      }
      other.m.matrix := Assembled(other.m.matrix);
      return Ok((matrix, other.m.matrix));
    }

    /** `self + other` (and `other + self`, `__radd__` being `__add__`):
        `self` itself when `other == 0`; otherwise a new wrapper holding the
        entrywise sum. */
    method Add(other: Operand) returns (r: Result<PETScMatrix>)
      requires Valid() && OperandValid(other)
      modifies this`matrix, MatrixOf(other)`matrix
      ensures Valid() && OperandValid(other)
      ensures EqualsZero(other).Err? ==> r == Err(ValueError)
      ensures EqualsZero(other) == Ok(true) ==> r == Ok(this)
      ensures EqualsZero(other) == Ok(false) ==>
        var out := Combined(old(held), old(matrix), other, old(HeldOf(other)), old(MatOf(other)), false);
        (r.Err? <==> out.Err?) && (r.Err? ==> r.error == out.error)
        && (r.Ok? ==> fresh(r.value) && r.value.Valid() && r.value.held && r.value.mesh == None
                      && r.value.matrix == out.value)
      ensures matrix == if EqualsZero(other) == Ok(false) && old(held) then Assembled(old(matrix)) else old(matrix)
      ensures other.Matrix? && other.m != this ==>
        other.m.matrix == if EqualsZero(other) == Ok(false) && old(held) && old(other.m.held) then Assembled(old(other.m.matrix)) else old(other.m.matrix)
    {
      r := Combine(other, false);
    }

    /** `self - other`: `self` itself when `other == 0`; otherwise a new
        wrapper holding the entrywise difference. */
    method Sub(other: Operand) returns (r: Result<PETScMatrix>)
      requires Valid() && OperandValid(other)
      modifies this`matrix, MatrixOf(other)`matrix
      ensures Valid() && OperandValid(other)
      ensures EqualsZero(other).Err? ==> r == Err(ValueError)
      ensures EqualsZero(other) == Ok(true) ==> r == Ok(this)
      ensures EqualsZero(other) == Ok(false) ==>
        var out := Combined(old(held), old(matrix), other, old(HeldOf(other)), old(MatOf(other)), true);
        (r.Err? <==> out.Err?) && (r.Err? ==> r.error == out.error)
        && (r.Ok? ==> fresh(r.value) && r.value.Valid() && r.value.held && r.value.mesh == None
                      && r.value.matrix == out.value)
      ensures matrix == if EqualsZero(other) == Ok(false) && old(held) then Assembled(old(matrix)) else old(matrix)
      ensures other.Matrix? && other.m != this ==>
        other.m.matrix == if EqualsZero(other) == Ok(false) && old(held) && old(other.m.held) then Assembled(old(other.m.matrix)) else old(other.m.matrix)
    {
      r := Combine(other, true);
    }

    /** The common body of `__add__` and `__sub__`. */
    method Combine(other: Operand, subtract: bool) returns (r: Result<PETScMatrix>)
      requires Valid() && OperandValid(other)
      modifies this`matrix, MatrixOf(other)`matrix
      ensures Valid() && OperandValid(other)
      ensures EqualsZero(other).Err? ==> r == Err(ValueError)
      ensures EqualsZero(other) == Ok(true) ==> r == Ok(this)
      ensures EqualsZero(other) == Ok(false) ==>
        var out := Combined(old(held), old(matrix), other, old(HeldOf(other)), old(MatOf(other)), subtract);
        (r.Err? <==> out.Err?) && (r.Err? ==> r.error == out.error)
        && (r.Ok? ==> fresh(r.value) && r.value.Valid() && r.value.held && r.value.mesh == None
                      && r.value.matrix == out.value)
      ensures matrix == if EqualsZero(other) == Ok(false) && old(held) then Assembled(old(matrix)) else old(matrix)
      ensures other.Matrix? && other.m != this ==>
        other.m.matrix == if EqualsZero(other) == Ok(false) && old(held) && old(other.m.held) then Assembled(old(other.m.matrix)) else old(other.m.matrix)
    {
      var zero := EqualsZero(other);
      if zero.Err? {
        return Err(zero.error);
      }
      if zero.value {
        return Ok(this);
      }
      var pair := AssembleBoth(other);
      if pair.Err? {
        return Err(pair.error);
      }
      var a, b := pair.value.0, pair.value.1;
      var out := if subtract then SubMat(a, b) else AddMat(a, b);
      if out.Err? {
        return Err(out.error);
      }
      var p := new PETScMatrix(out.value);
      return Ok(p);
    }

    /** `self += other` (or `-=` when `subtract`): unless `other != 0` is
        false, `self.matrix` becomes the entrywise sum (difference). */
    method ICombine(other: Operand, subtract: bool) returns (err: Option<Error>)
      requires Valid() && OperandValid(other)
      modifies this`matrix, MatrixOf(other)`matrix
      ensures Valid() && OperandValid(other)
      ensures DiffersFromZero(other).Err? ==> err == Some(ValueError) && matrix == old(matrix)
      ensures DiffersFromZero(other) == Ok(false) ==> err == None && matrix == old(matrix)
      ensures DiffersFromZero(other) == Ok(true) ==>
        var out := Combined(old(held), old(matrix), other, old(HeldOf(other)), old(MatOf(other)), subtract);
        (err.Some? <==> out.Err?) && (err.Some? ==> err.value == out.error)
        && matrix == if out.Ok? then out.value else if old(held) then Assembled(old(matrix)) else old(matrix)
      ensures other.Matrix? && other.m != this ==>
        other.m.matrix == if DiffersFromZero(other) == Ok(true) && old(held) && old(other.m.held) then Assembled(old(other.m.matrix)) else old(other.m.matrix)
    {
      var nonzero := DiffersFromZero(other);
      if nonzero.Err? {
        return Some(nonzero.error);
      }
      if !nonzero.value {
        return None;
      }
      var pair := AssembleBoth(other);
      if pair.Err? {
        return Some(pair.error);
      }
      var a, b := pair.value.0, pair.value.1;
      var out := if subtract then SubMat(a, b) else AddMat(a, b);
      if out.Err? {
        return Some(out.error);
      }
      matrix := out.value;
      return None;
    }

    /** `self += other`. */
    method IAdd(other: Operand) returns (err: Option<Error>)
      requires Valid() && OperandValid(other)
      modifies this`matrix, MatrixOf(other)`matrix
      ensures Valid() && OperandValid(other)
      ensures DiffersFromZero(other).Err? ==> err == Some(ValueError) && matrix == old(matrix)
      ensures DiffersFromZero(other) == Ok(false) ==> err == None && matrix == old(matrix)
      ensures DiffersFromZero(other) == Ok(true) ==>
        var out := Combined(old(held), old(matrix), other, old(HeldOf(other)), old(MatOf(other)), false);
        (err.Some? <==> out.Err?) && (err.Some? ==> err.value == out.error)
        && matrix == if out.Ok? then out.value else if old(held) then Assembled(old(matrix)) else old(matrix)
      ensures other.Matrix? && other.m != this ==>
        other.m.matrix == if DiffersFromZero(other) == Ok(true) && old(held) && old(other.m.held) then Assembled(old(other.m.matrix)) else old(other.m.matrix)
    {
      err := ICombine(other, false);
    }

    /** `self -= other`. */
    method ISub(other: Operand) returns (err: Option<Error>)
      requires Valid() && OperandValid(other)
      modifies this`matrix, MatrixOf(other)`matrix
      ensures Valid() && OperandValid(other)
      ensures DiffersFromZero(other).Err? ==> err == Some(ValueError) && matrix == old(matrix)
      ensures DiffersFromZero(other) == Ok(false) ==> err == None && matrix == old(matrix)
      ensures DiffersFromZero(other) == Ok(true) ==>
        var out := Combined(old(held), old(matrix), other, old(HeldOf(other)), old(MatOf(other)), true);
        (err.Some? <==> out.Err?) && (err.Some? ==> err.value == out.error)
        && matrix == if out.Ok? then out.value else if old(held) then Assembled(old(matrix)) else old(matrix)
      ensures other.Matrix? && other.m != this ==>
        other.m.matrix == if DiffersFromZero(other) == Ok(true) && old(held) && old(other.m.held) then Assembled(old(other.m.matrix)) else old(other.m.matrix)
    {
      err := ICombine(other, true);
    }

    /** `self * other`. */
    method Mul(other: Operand) returns (r: Result<MulResult>)
      requires Valid() && OperandValid(other)
      modifies this`matrix, MatrixOf(other)`matrix
      ensures Valid() && OperandValid(other)
      ensures Delivers(r, MulOutcome(old(held), old(matrix), old(mesh), other, old(HeldOf(other)), old(MatOf(other)), old(MeshOf(other))))
      ensures r.Ok? && r.value.MatrixResult? ==> fresh(r.value.m) && r.value.m.Valid()
      ensures matrix == if old(held) then Assembled(old(matrix)) else old(matrix)
      ensures other.Matrix? && other.m != this ==>
        other.m.matrix == if old(held) && old(other.m.held) then Assembled(old(other.m.matrix)) else old(other.m.matrix)
    {
      if !held {
        return Err(AttributeError);
      }
      if other.Matrix? {
        var pair := AssembleBoth(other);
        if pair.Err? {
          return Err(pair.error);
        }
        var product := MatMult(pair.value.0, pair.value.1);
        if product.Err? {
          return Err(product.error);
        }
        var p;
        if mesh.Some? && other.m.mesh.Some? {
          p := new PETScMatrix.MeshMatrix(mesh.value, 1, 1, Some(product.value));
        } else {
          p := new PETScMatrix(product.value);
        }
        return Ok(MatrixResult(p));
      }
      matrix := Assembled(matrix);
      if other.Number? {
        var p := new PETScMatrix(ScaleMat(matrix, other.x));
        return Ok(MatrixResult(p));
      }
      r := MulVector(other.v);
    }

    /** The vector branch of `__mul__` on an assembled matrix. */
    method MulVector(v: seq<real>) returns (r: Result<MulResult>)
      requires matrix.assembled
      ensures Delivers(r, VectorOutcome(matrix, v))
    {
      if |v| != matrix.cols {
        return Err(TypeError);
      }
      var y := Mult(matrix, v, matrix.cols);
      if y.Err? {
        return Err(y.error);
      }
      return Ok(VectorResult(y.value));
    }

    /** `other * self` when `other` does not handle it: a numpy array goes
        through PETSc's `multTranspose` (with both work vectors of length
        `cols`, and without assembling first); anything else is `self * other`. */
    method RMul(other: Operand) returns (r: Result<MulResult>)
      requires Valid() && OperandValid(other)
      modifies this`matrix, MatrixOf(other)`matrix
      ensures Valid() && OperandValid(other)
      ensures other.Array? ==> (matrix == old(matrix)
        && r == if !old(held) then Err(AttributeError)
                else if |other.v| != old(matrix.cols) then Err(ValueError)
                else match MultTranspose(old(matrix), other.v, old(matrix.cols))
                  case Err(e) => Err(e)
                  case Ok(y) => Ok(VectorResult(y)))
      ensures !other.Array? ==>
        Delivers(r, MulOutcome(old(held), old(matrix), old(mesh), other, old(HeldOf(other)), old(MatOf(other)), old(MeshOf(other))))
        && (r.Ok? && r.value.MatrixResult? ==> fresh(r.value.m) && r.value.m.Valid())
        && matrix == (if old(held) then Assembled(old(matrix)) else old(matrix))
      ensures !other.Array? && other.Matrix? && other.m != this ==>
        other.m.matrix == if old(held) && old(other.m.held) then Assembled(old(other.m.matrix)) else old(other.m.matrix)
    {
      if other.Array? {
        if !held {
          return Err(AttributeError);
        }
        if |other.v| != matrix.cols {
          return Err(ValueError);
        }
        var y := MultTranspose(matrix, other.v, matrix.cols);
        if y.Err? {
          return Err(y.error);
        }
        return Ok(VectorResult(y.value));
      }
      r := Mul(other);
    }

    /** `other - self`, computed as `-self + other` where `-self` is `self * -1`. */
    method RSub(other: Operand) returns (r: Result<PETScMatrix>)
      requires Valid() && OperandValid(other)
      modifies this`matrix, MatrixOf(other)`matrix
      ensures Valid() && OperandValid(other)
      ensures matrix == if old(held) then Assembled(old(matrix)) else old(matrix)
      ensures !old(held) ==> r == Err(AttributeError)
      ensures old(held) && EqualsZero(other).Err? ==> r == Err(ValueError)
      ensures old(held) && EqualsZero(other) == Ok(true) ==>
        r.Ok? && fresh(r.value) && r.value.Valid() && r.value.held && r.value.mesh == None
        && r.value.matrix == ScaleMat(old(matrix), -1.0)
      ensures old(held) && EqualsZero(other) == Ok(false) ==>
        var out := Combined(true, ScaleMat(old(matrix), -1.0), other, old(HeldOf(other)), old(MatOf(other)), false);
        (r.Err? <==> out.Err?) && (r.Err? ==> r.error == out.error)
        && (r.Ok? ==> fresh(r.value) && r.value.Valid() && r.value.held && r.value.mesh == None
                      && r.value.matrix == out.value)
      ensures other.Matrix? && other.m != this ==>
        other.m.matrix == if old(held) && EqualsZero(other) == Ok(false) && old(other.m.held)
                          then Assembled(old(other.m.matrix)) else old(other.m.matrix)
    {
      var negated := Mul(Number(-1.0));
      if negated.Err? {
        return Err(negated.error);
      }
      var n := negated.value.m;
      r := n.Add(other);
    }

    /** `flush()` of a mesh matrix: deletes `matrix` unless `cache` is set;
        deleting it twice, or calling `flush` on a wrapper that is not a mesh
        matrix, is an AttributeError. */
    method Flush() returns (err: Option<Error>)
      modifies this`held
      ensures err == if mesh.None? || (!cache && !old(held)) then Some(AttributeError) else None
      ensures held == (old(held) && (mesh.None? || cache))
    {
      if mesh.None? {
        return Some(AttributeError);
      }
      if cache {
        return None;
      }
      if !held {
        return Some(AttributeError);
      }
      held := false;
      return None;
    }
  }

  lemma GridBounds(p: int, rows: nat, cols: nat)
    requires 0 <= p < rows * cols
    ensures 0 <= GridRows(rows, cols)[p] < rows && 0 <= GridCols(rows, cols)[p] < cols
  {
    assert cols != 0;
    var q := p / cols;
    if q >= rows {
      assert q * cols >= rows * cols;
    }
  }

  /** On the pairs (k, k) for k < n, addAt adds v[r] at (r, r) and nothing elsewhere. */
  lemma KeySumOfIds(v: seq<real>, n: nat, r: int, c: int)
    requires n <= |v|
    ensures KeySum(Triplets(Range(n), Range(n), v), r, c) == if r == c && 0 <= r < n then v[r] else 0.0
  {
    KeySumOfIdsFrom(v, 0, n, r, c);
  }

  lemma {:induction false} KeySumOfIdsFrom(v: seq<real>, lo: nat, n: nat, r: int, c: int)
    requires lo <= n <= |v|
    ensures KeySum(Triplets(Range(n), Range(n), v)[lo..], r, c) == if r == c && lo <= r < n then v[r] else 0.0
    decreases n - lo
  {
    var ts := Triplets(Range(n), Range(n), v);
    if lo < n {
      assert ts[lo..][1..] == ts[lo + 1..];
      KeySumOfIdsFrom(v, lo + 1, n, r, c);
    }
  }
}
