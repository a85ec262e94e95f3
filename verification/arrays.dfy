/** The numpy operations the history tensors are built with, on 2-D arrays
    stored row by row. */
module Arrays {

  /** A `height` x `width` numpy array. */
  datatype Matrix = Matrix(height: nat, width: nat, cells: seq<seq<real>>)

  /** The cells really form a `height` x `width` grid. */
  predicate Valid(m: Matrix) {
    |m.cells| == m.height && forall i :: 0 <= i < m.height ==> |m.cells[i]| == m.width
  }

  /** A row of `n` zeros. */
  function ZeroRow(n: nat): (v: seq<real>)
    ensures |v| == n && forall j :: 0 <= j < n ==> v[j] == 0.0
  {
    seq(n, _ => 0.0)
  }

  /** `m.transpose()`. */
  function Transpose(m: Matrix): (t: Matrix)
    requires Valid(m)
    ensures Valid(t) && t.height == m.width && t.width == m.height
    ensures forall i, j :: 0 <= i < m.height && 0 <= j < m.width ==> t.cells[j][i] == m.cells[i][j]
  {
    Matrix(m.width, m.height,
      seq(m.width, j requires 0 <= j < m.width =>
        seq(m.height, i requires 0 <= i < m.height => m.cells[i][j])))
  }

  /** Transposing twice gives back the matrix. */
  lemma TransposeTwice(m: Matrix)
    requires Valid(m)
    ensures Transpose(Transpose(m)) == m
  {
    var t := Transpose(Transpose(m));
    forall i | 0 <= i < m.height ensures t.cells[i] == m.cells[i] {
    }
  }

  /** `a - b` on arrays of the same shape. */
  function Sub(a: Matrix, b: Matrix): (d: Matrix)
    requires Valid(a) && Valid(b) && a.height == b.height && a.width == b.width
    ensures Valid(d) && d.height == a.height && d.width == a.width
    ensures forall i, j :: 0 <= i < a.height && 0 <= j < a.width ==> d.cells[i][j] == a.cells[i][j] - b.cells[i][j]
  {
    Matrix(a.height, a.width,
      seq(a.height, i requires 0 <= i < a.height =>
        seq(a.width, j requires 0 <= j < a.width => a.cells[i][j] - b.cells[i][j])))
  }

  /** `np.hstack([a, b, c])` on 2-D arrays: glue along axis 1, so each row
      of the result is the three rows side by side. */
  function HStack3(a: Matrix, b: Matrix, c: Matrix): (r: Matrix)
    requires Valid(a) && Valid(b) && Valid(c) && a.height == b.height == c.height
    ensures Valid(r) && r.height == a.height && r.width == a.width + b.width + c.width
    ensures forall i, j :: 0 <= i < a.height && 0 <= j < a.width ==> r.cells[i][j] == a.cells[i][j]
    ensures forall i, j :: 0 <= i < a.height && 0 <= j < b.width ==> r.cells[i][a.width + j] == b.cells[i][j]
    ensures forall i, j :: 0 <= i < a.height && 0 <= j < c.width ==> r.cells[i][a.width + b.width + j] == c.cells[i][j]
  {
    Matrix(a.height, a.width + b.width + c.width,
      seq(a.height, i requires 0 <= i < a.height => a.cells[i] + b.cells[i] + c.cells[i]))
  }

  /** Cell (`i`, `j`) of an array stored as is, or of its transpose. */
  function At(m: Matrix, transpose: bool, i: nat, j: nat): real
    requires Valid(m)
    requires if transpose then j < m.height && i < m.width else i < m.height && j < m.width
  {
    if transpose then m.cells[j][i] else m.cells[i][j]
  }

  /** The array as is, or transposed on request; either way `At` reads the
      original cells back. */
  function Layout(m: Matrix, transpose: bool): (r: Matrix)
    requires Valid(m)
    ensures Valid(r)
    ensures !transpose ==> r.height == m.height && r.width == m.width
    ensures transpose ==> r.height == m.width && r.width == m.height
    ensures forall i, j :: 0 <= i < m.height && 0 <= j < m.width ==> At(r, transpose, i, j) == m.cells[i][j]
  {
    if transpose then Transpose(m) else m
  }
}
