/** `map_matrix` and `map_matrix3` (core/pikaxe_bevy/src/plugins.rs): a milo
    matrix's fields `mIJ` are handed to `Mat4::from_cols_array` in the order
    m11, m12, ..., m44, so milo row I becomes column I - 1 of the engine
    matrix. The element type is generic; `zero` and `one` stand for 0.0 and
    1.0. */
module MatrixMap {

  /** A milo 4x4 matrix, field `mIJ` in row I, column J. */
  datatype Matrix<T> = Matrix(
    m11: T, m12: T, m13: T, m14: T,
    m21: T, m22: T, m23: T, m24: T,
    m31: T, m32: T, m33: T, m34: T,
    m41: T, m42: T, m43: T, m44: T)

  /** The nine fields of a milo 3x3 matrix that `map_matrix3` reads. */
  datatype Matrix3<T> = Matrix3(
    m11: T, m12: T, m13: T,
    m21: T, m22: T, m23: T,
    m31: T, m32: T, m33: T)

  /** An engine matrix as the 16 values given to `from_cols_array`:
      column 0 first, each column top to bottom. */
  datatype Mat4<T> = FromColsArray(values: seq<T>)

  predicate WellFormed<T>(a: Mat4<T>) {
    |a.values| == 16
  }

  /** Element at column `c`, row `r` (both 0-based). */
  function At<T>(a: Mat4<T>, c: nat, r: nat): T
    requires WellFormed(a) && c < 4 && r < 4
  {
    a.values[4 * c + r]
  }

  /** Field `mIJ` of a milo matrix (both 1-based). */
  function Entry<T>(m: Matrix<T>, i: nat, j: nat): T
    requires 1 <= i <= 4 && 1 <= j <= 4
  {
    if i == 1 then (if j == 1 then m.m11 else if j == 2 then m.m12 else if j == 3 then m.m13 else m.m14)
    else if i == 2 then (if j == 1 then m.m21 else if j == 2 then m.m22 else if j == 3 then m.m23 else m.m24)
    else if i == 3 then (if j == 1 then m.m31 else if j == 2 then m.m32 else if j == 3 then m.m33 else m.m34)
    else (if j == 1 then m.m41 else if j == 2 then m.m42 else if j == 3 then m.m43 else m.m44)
  }

  function Entry3<T>(m: Matrix3<T>, i: nat, j: nat): T
    requires 1 <= i <= 3 && 1 <= j <= 3
  {
    if i == 1 then (if j == 1 then m.m11 else if j == 2 then m.m12 else m.m13)
    else if i == 2 then (if j == 1 then m.m21 else if j == 2 then m.m22 else m.m23)
    else (if j == 1 then m.m31 else if j == 2 then m.m32 else m.m33)
  }

  /** `map_matrix`: milo row I, column J lands at engine column I - 1, row J - 1. */
  function MapMatrix<T>(m: Matrix<T>): (a: Mat4<T>)
    ensures WellFormed(a)
    ensures forall c, r :: 0 <= c < 4 && 0 <= r < 4 ==> At(a, c, r) == Entry(m, c + 1, r + 1)
  {
    FromColsArray([
      m.m11, m.m12, m.m13, m.m14,
      m.m21, m.m22, m.m23, m.m24,
      m.m31, m.m32, m.m33, m.m34,
      m.m41, m.m42, m.m43, m.m44])
  }

  /** Reads the milo fields back out of an engine matrix. */
  function UnmapMatrix<T>(a: Mat4<T>): Matrix<T>
    requires WellFormed(a)
  {
    var v := a.values;
    Matrix(v[0], v[1], v[2], v[3], v[4], v[5], v[6], v[7],
           v[8], v[9], v[10], v[11], v[12], v[13], v[14], v[15])
  }

  /** `map_matrix` loses nothing: it is a bijection onto well-formed matrices. */
  lemma MapMatrixRoundTrip<T>(m: Matrix<T>, a: Mat4<T>)
    requires WellFormed(a)
    ensures UnmapMatrix(MapMatrix(m)) == m
    ensures MapMatrix(UnmapMatrix(a)) == a
  {
    assert MapMatrix(UnmapMatrix(a)).values == a.values;
  }

  /** `map_matrix3`: the 3x3 block is placed like `map_matrix` places it;
      the fourth row and column are zero except a one in the corner. */
  function MapMatrix3<T>(m: Matrix3<T>, zero: T, one: T): (a: Mat4<T>)
    ensures WellFormed(a)
    ensures forall c, r :: 0 <= c < 3 && 0 <= r < 3 ==> At(a, c, r) == Entry3(m, c + 1, r + 1)
    ensures forall k :: 0 <= k < 3 ==> At(a, k, 3) == zero && At(a, 3, k) == zero
    ensures At(a, 3, 3) == one
  {
    FromColsArray([
      m.m11, m.m12, m.m13, zero,
      m.m21, m.m22, m.m23, zero,
      m.m31, m.m32, m.m33, zero,
      zero, zero, zero, one])
  }

  /** A 3x3 matrix mapped directly agrees with the same matrix padded to
      4x4 (zero fourth row and column, one in the corner) and then mapped. */
  lemma MapMatrix3AsPadded<T>(m: Matrix3<T>, zero: T, one: T)
    ensures MapMatrix3(m, zero, one) == MapMatrix(Matrix(
      m.m11, m.m12, m.m13, zero,
      m.m21, m.m22, m.m23, zero,
      m.m31, m.m32, m.m33, zero,
      zero, zero, zero, one))
  {
  }
}
