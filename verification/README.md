# RT-FEM matrix utilities and tetrahedron face ordering, in Dafny

This project models two small parts of RT-FEM, a real-time finite element engine for
tetrahedral meshes.

The first part is `MatrixMath`, the generic dense-matrix helpers:

- `ContractMatrix` deletes one row and one column.
- `Transpose` transposes a matrix.
- `ComputeDeterminant2` is the 2 x 2 closed form.
- `ComputeDeterminant` does cofactor expansion along row 0, recursing on contracted matrices.

A matrix carries explicit row and column counts, as the C++ `Matrix` does. The two
exceptions become a `Result` error: `std::out_of_range` is `OutOfRange` and
`std::invalid_argument` is `InvalidArgument`. `ComputeDeterminant` throws `std::invalid_argument`
for a non-square matrix, and the model follows the code.

The determinant is kept exactly as written:

- a 1 x 1 matrix has no base case, so its expansion contracts it and fails with `InvalidArgument`;
- a 0 x 0 matrix expands to the empty sum, 0.

`DeterminantLaws` defines a reference determinant `Det` by Laplace expansion. It proves that
`ComputeDeterminant` equals `Det` on every square matrix of size 2 or more. It also proves that
the determinant of a transpose equals the determinant.

The second part is the face-ordering convention of the linear tetrahedron solver. An element
lists its vertices v1..v4, and its faces are Face1 = {v2,v3,v4}, Face2 = {v3,v4,v1},
Face3 = {v4,v1,v2} and Face4 = {v1,v2,v3}. The solver takes the element's four triangle faces
in any order and puts them into this order; `FetchOrderedTriangleFaces` does that. It then reads
each face's traction force in that order; `FetchTractionForce` does that. These are modelled at
the level of vertex indices.

Files:

- `results.dfy`: `Option` and `Result`.
- `matrix_math.dfy`: module `MatrixMath`.
- `determinant_laws.dfy`: module `DeterminantLaws`.
- `tetrahedron_faces.dfy`: module `TetrahedronFaces`.

## Model

| member | source | states |
|---|---|---|
| MatrixMath.Minor | sources/src/RTFEM/Math/MatrixMath.cpp:50-61 | the contracted matrix is (rows-1) x (columns-1), and its entry (i, j) is the original entry (i + [i >= row], j + [j >= column]), so the remaining rows and columns keep their relative order |
| MatrixMath.MinorKeepsOtherEntries | sources/src/RTFEM/Math/MatrixMath.cpp:51-61 | every original entry off the deleted row and column lands at (i > row ? i-1 : i, j > column ? j-1 : j), the position the loop writes it to |
| MatrixMath.IndexRoundTrip | sources/src/RTFEM/Math/MatrixMath.cpp:57-58 | the loop's contracted index and the original-index map are inverse to each other on every index except the deleted one |
| MatrixMath.Contract | sources/src/RTFEM/Math/MatrixMath.cpp:42-64 | OutOfRange exactly when row >= row_count or column >= column_count, whatever the size; InvalidArgument exactly when the indices are in range and a dimension is 1; otherwise success with both dimensions reduced by one and the minor as value |
| MatrixMath.ContractByScatter | sources/src/RTFEM/Math/MatrixMath.cpp:42-64 | the row/column scatter loops over a zero-filled (rows-1) x (columns-1) matrix return exactly Contract's result, errors included |
| MatrixMath.Transpose | sources/src/RTFEM/Math/MatrixMath.cpp:66-76 | an m x n matrix becomes n x m with T[j][i] = M[i][j] |
| MatrixMath.TransposeInvolution | sources/src/RTFEM/Math/MatrixMath.cpp:66-76 | transposing twice gives back the matrix, shape included |
| MatrixMath.TransposeByScatter | sources/src/RTFEM/Math/MatrixMath.cpp:66-76 | the nested loops writing m[j][i] = matrix[i][j] compute Transpose |
| MatrixMath.MinorTranspose | sources/src/RTFEM/Math/MatrixMath.cpp:50-75 | deleting row r and column c and then transposing equals deleting row c and column r of the transpose |
| MatrixMath.ContractTranspose | sources/src/RTFEM/Math/MatrixMath.cpp:42-75 | ContractMatrix commutes with Transpose (indices swapped): same failure, same error kind, and on success the transposed contraction |
| MatrixMath.Sign | sources/src/RTFEM/Math/MatrixMath.cpp:28-36 | the `even_counter` factor starts at +1 (`even_counter = 1`) and flips sign at every step |
| MatrixMath.Determinant2AsWritten | sources/src/RTFEM/Math/MatrixMath.cpp:10-17 | the guard as written: the call fails only when neither dimension is 2; otherwise it returns m00*m11 - m01*m10 |
| MatrixMath.Determinant2AsWrittenAcceptsNonSquare | sources/src/RTFEM/Math/MatrixMath.cpp:11-12 | the 2 x 3 matrix [[1,2,3],[4,5,6]] passes the as-written guard with value -3, while the corrected function rejects it |
| MatrixMath.Determinant2 | sources/src/RTFEM/Math/MatrixMath.cpp:10-17 | fails with InvalidArgument exactly when the matrix is not 2 x 2; otherwise the value is m00*m11 - m01*m10 |
| MatrixMath.Determinant | sources/src/RTFEM/Math/MatrixMath.cpp:19-40 | fails exactly on non-square input or a 1 x 1 matrix, always with InvalidArgument; a 0 x 0 matrix yields 0 |
| MatrixMath.DeterminantOfTwoByTwo | sources/src/RTFEM/Math/MatrixMath.cpp:25-26 | a 2 x 2 matrix takes the closed form m00*m11 - m01*m10 |
| MatrixMath.Expansion | sources/src/RTFEM/Math/MatrixMath.cpp:28-37 | k steps of the expansion loop fail exactly when k > 0 and the matrix is at most 2 x 2, with InvalidArgument |
| MatrixMath.ExpansionNext | sources/src/RTFEM/Math/MatrixMath.cpp:30-37 | one more loop iteration adds even_counter * a * det(contracted) to the running sum |
| MatrixMath.DeterminantByLoop | sources/src/RTFEM/Math/MatrixMath.cpp:19-40 | the loop with its running even_counter and determinant, recursing on each contraction, returns exactly Determinant's result |
| DeterminantLaws.ExpansionStep | sources/src/RTFEM/Math/MatrixMath.cpp:30-37 | a loop iteration extends the partial sum of cofactor terms by the next term |
| DeterminantLaws.ExpansionIsReference | sources/src/RTFEM/Math/MatrixMath.cpp:28-37 | after k iterations, for n >= 3, the running determinant is the sum of the first k Laplace cofactor terms of row 0 |
| DeterminantLaws.DeterminantIsReference | sources/src/RTFEM/Math/MatrixMath.cpp:19-40 | on every square matrix of size n >= 2, ComputeDeterminant succeeds with the Laplace determinant |
| DeterminantLaws.CofactorExpansion | sources/src/RTFEM/Math/MatrixMath.cpp:28-39 | for n >= 3, every Contract(M, 0, i) and its determinant succeed, and det M = sum over i of (-1)^i * M[0][i] * det(Contract(M, 0, i)) |
| DeterminantLaws.MinorsCommute | sources/src/RTFEM/Math/MatrixMath.cpp:50-61 | deleting row 0 and column j+1 and then row i and column 0 gives the same matrix as deleting row i+1 and column 0 and then row 0 and column j |
| DeterminantLaws.DeterminantOfTranspose | sources/src/RTFEM/Math/MatrixMath.cpp:19-76 | ComputeDeterminant(Transpose(M)) = ComputeDeterminant(M) on every matrix, the failing shapes included |
| TetrahedronFaces.FaceRuleIsCyclic | sources/include/RTFEM/FEM/Solver/FiniteElementSolvers/TetrahedronSolver/TetrahedronSolver.h:28-34 | face k lists the local vertices k+1, k+2, k+3 (mod 4); it never names vertex k and names every other vertex |
| TetrahedronFaces.FaceSets | sources/include/RTFEM/FEM/Solver/FiniteElementSolvers/TetrahedronSolver/TetrahedronSolver.h:31-34 | the four faces are {v2,v3,v4}, {v3,v4,v1}, {v4,v1,v2} and {v1,v2,v3} |
| TetrahedronFaces.FaceOmitsItsVertex | sources/include/RTFEM/FEM/Solver/FiniteElementSolvers/TetrahedronSolver/TetrahedronSolver.h:28-34 | with distinct vertices, face k has three distinct vertices, does not contain vk, and is exactly the element's vertices minus vk |
| TetrahedronFaces.VertexOnThreeFaces | sources/include/RTFEM/FEM/Solver/FiniteElementSolvers/TetrahedronSolver/TetrahedronSolver.h:28-34 | with distinct vertices, vertex vk lies on exactly the faces other than face k, so on three of the four faces |
| TetrahedronFaces.ForeignVertexOnNoFace | sources/include/RTFEM/FEM/Solver/FiniteElementSolvers/TetrahedronSolver/TetrahedronSolver.h:28-34 | a vertex that is not one of the element's lies on no face |
| TetrahedronFaces.FaceSetsDistinct | sources/include/RTFEM/FEM/Solver/FiniteElementSolvers/TetrahedronSolver/TetrahedronSolver.h:28-34 | with distinct vertices, two faces have the same vertex set exactly when they are the same face |
| TetrahedronFaces.FindFace | sources/include/RTFEM/FEM/Solver/FiniteElementSolvers/TetrahedronSolver/TetrahedronSolver.h:77-86 | finds nothing exactly when no supplied face spans the target vertex set; otherwise returns the first supplied face that does |
| TetrahedronFaces.OrderedTriangleFaces | sources/include/RTFEM/FEM/Solver/FiniteElementSolvers/TetrahedronSolver/TetrahedronSolver.h:24-34 | succeeds exactly when each of the four rule faces is among the supplied faces; then position k holds a supplied face spanning face k of the rule |
| TetrahedronFaces.OrderedPositions | sources/include/RTFEM/FEM/Solver/FiniteElementSolvers/TetrahedronSolver/TetrahedronSolver.h:77-86 | with distinct vertices, the ordered faces are the supplied faces read through a permutation of the four positions |
| TetrahedronFaces.OrderingIsPermutation | sources/include/RTFEM/FEM/Solver/FiniteElementSolvers/TetrahedronSolver/TetrahedronSolver.h:77-86 | with distinct vertices, the ordered faces are a permutation of the supplied faces: nothing added, dropped or altered |
| TetrahedronFaces.OrderedFaceIsUnique | sources/include/RTFEM/FEM/Solver/FiniteElementSolvers/TetrahedronSolver/TetrahedronSolver.h:27-34 | with distinct vertices, ordered face k is the only supplied face spanning face k of the rule |
| TetrahedronFaces.OrderingIgnoresSupplyOrder | sources/include/RTFEM/FEM/Solver/FiniteElementSolvers/TetrahedronSolver/TetrahedronSolver.h:25-27 | with distinct vertices, any rearrangement of the supplied faces gives the same result, success or failure |
| TetrahedronFaces.TractionFollowsOrder | sources/include/RTFEM/FEM/Solver/FiniteElementSolvers/TetrahedronSolver/TetrahedronSolver.h:88-98 | traction k is the traction of the supplied face spanning face k of the rule, whatever the supply order |
| TetrahedronFaces.TractionsArePermuted | sources/include/RTFEM/FEM/Solver/FiniteElementSolvers/TetrahedronSolver/TetrahedronSolver.h:88-98 | the tractions read in rule order are the supplied faces' tractions, rearranged |
| TetrahedronFaces.TractionForces | sources/include/RTFEM/FEM/Solver/FiniteElementSolvers/TetrahedronSolver/TetrahedronSolver.h:97-98 | one traction value per ordered face |

## Left out

- Float entries are modelled as exact integers. Rounding, overflow and NaN are not modelled, so the proved identities hold for exact arithmetic only.
- The exception messages are not modelled; only the exception kind is.
- The 0 x 0 case returns 0 as written, not the textbook 1. The reference `Det` uses 1, so `DeterminantLaws.DeterminantIsReference` is stated for n >= 2 only.
- MatrixMath.Determinant2AsWritten: it requires the four entries it reads to exist. On a 2 x 1 or 1 x 2 matrix the C++ code reads out of bounds, which is undefined behaviour and has no value to model.
- The bodies of `FetchOrderedTriangleFaces` and `FetchTractionForce` are not part of this model; only their declarations and the documented rule are. The model assumes three things:
  - a supplied face matches a rule face when their vertex sets are equal;
  - the first matching face is taken;
  - there is no result when some rule face is missing.
- TetrahedronFaces.OrderedTriangleFaces: it returns face values, not pointers. Later writes through those pointers, by `SaveTriangleFaceData`, are not modelled.
- TetrahedronFaces.OrderingIsPermutation, OrderedFaceIsUnique, OrderingIgnoresSupplyOrder, TractionFollowsOrder and TractionsArePermuted all assume the element's four vertices are distinct. With a repeated vertex, two rule faces have the same vertex set, and the first-match choice then depends on the supply order.
- TetrahedronFaces.TractionForces: its own contract states only the length. What each entry is, is stated by TractionFollowsOrder.
- The tetrahedron numerics are not modelled: shape-function coefficients, volume, the 6 x 12 geometry matrix, the force vectors and the Jacobian inverse. They are floating-point geometry, and only their declarations are visible.
- The following are not part of this model:
  - `FEMDynamicSolver.h`: GPU solve and matrix-vector wrappers, timers, and the implicit time-integration loop;
  - `FEMSolver.h`: the abstract interface and its linear-solve wrapper;
  - `FEMModel.h`: ownership and accessors;
  - global assembly, boundary-condition elimination, and their concurrency.

## Findings

| source | as written | input that shows it | evidently intended | confidence | as-written member | corrected member |
|---|---|---|---|---|---|---|
| sources/src/RTFEM/Math/MatrixMath.cpp:11-12 | `ComputeDeterminant2` throws only when `row_count != 2 && column_count != 2`, so a matrix with just one dimension equal to 2 passes | the 2 x 3 matrix [[1,2,3],[4,5,6]] is accepted and gives -3; a 2 x 1 matrix passes and reads past its row | throw unless the matrix is exactly 2 x 2 (`\|\|`), as the message "Matrix must be 2x2" says | not executed | MatrixMath.Determinant2AsWrittenAcceptsNonSquare | MatrixMath.Determinant2 |
