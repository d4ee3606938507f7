/**
  The fixed-size matrix: `rows x cols` real elements held in one flat
  buffer in column-major order. Rust's const-generic dimensions become the
  constant fields `rows` and `cols`; a panic of the source becomes a
  precondition.
*/
module FixedMatrix {
  import opened Wrappers
  import opened ColumnMajor

  class Matrix {
    const rows: nat
    const cols: nat
    /** The elements, stored column by column. */
    const elems: array<real>

    /** The buffer holds exactly one slot per `(row, col)` pair. */
    predicate Valid()
    {
      elems.Length == rows * cols
    }

    /** The elements as a value, in storage order. */
    function Elems(): seq<real>
      reads elems
    {
      elems[..]
    }

    // -------------------------------------------------------------------
    // Construction
    // -------------------------------------------------------------------

    /** Wraps a buffer of exactly `rows * cols` elements, taken in column-major order. */
    constructor FromArray(rows: nat, cols: nat, s: seq<real>)
      requires |s| == rows * cols
      ensures Valid() && this.rows == rows && this.cols == cols
      ensures fresh(elems) && Elems() == s
    {
      this.rows := rows;
      this.cols := cols;
      this.elems := new real[|s|](i requires 0 <= i < |s| => s[i]);
    }

    /** A matrix from a slice of any length; `None` unless the length is `rows * cols`. */
    static method FromSlice(rows: nat, cols: nat, s: seq<real>) returns (m: Option<Matrix>)
      ensures m.Some? <==> |s| == rows * cols
      ensures m.Some? ==> fresh(m.value.elems) && m.value.Valid()
      ensures m.Some? ==> m.value.rows == rows && m.value.cols == cols && m.value.Elems() == s
    {
      if |s| == rows * cols {
        var v := new Matrix.FromArray(rows, cols, s);
        m := Some(v);
      } else {
        m := None;
      }
    }

    /** A matrix with `x` in every slot. */
    static method Filled(rows: nat, cols: nat, x: real) returns (m: Matrix)
      ensures fresh(m.elems) && m.Valid() && m.rows == rows && m.cols == cols
      ensures forall i | 0 <= i < m.elems.Length :: m.elems[i] == x
    {
      m := new Matrix.FromArray(rows, cols, seq(rows * cols, _ => x));
    }

    /** A matrix with `0.0` in every slot. */
    static method Empty(rows: nat, cols: nat) returns (m: Matrix)
      ensures fresh(m.elems) && m.Valid() && m.rows == rows && m.cols == cols
      ensures forall i | 0 <= i < m.elems.Length :: m.elems[i] == 0.0
    {
      m := Filled(rows, cols, 0.0);
    }

    /** A matrix with `e` at `(i, i)` for every `i < min(rows, cols)` and `0.0` elsewhere. */
    static method IdentityElems(rows: nat, cols: nat, e: real) returns (m: Matrix)
      ensures fresh(m.elems) && m.Valid() && m.rows == rows && m.cols == cols
      ensures IsDiagonal(m.Elems(), rows, cols, e)
    {
      m := Empty(rows, cols);
      var n := if rows < cols then rows else cols;
      for i := 0 to n
        invariant forall r: nat, c: nat | r < rows && c < cols ::
          m.GetUnsafe(r, c) == if r == c && r < i then e else 0.0
      {
        m.GetMutUnsafe(i, i, e);
      }
      forall r: nat, c: nat | r < rows && c < cols
        ensures Entry(m.Elems(), rows, cols, r, c) == if r == c then e else 0.0
      {
        assert m.Get(r, c) == Some(m.GetUnsafe(r, c));
      }
    }

    /** The identity matrix: `1.0` down the diagonal. */
    static method Identity(rows: nat, cols: nat) returns (m: Matrix)
      ensures fresh(m.elems) && m.Valid() && m.rows == rows && m.cols == cols
      ensures IsDiagonal(m.Elems(), rows, cols, 1.0)
    {
      m := IdentityElems(rows, cols, 1.0);
    }

    /** The default matrix is the identity. */
    static method Default(rows: nat, cols: nat) returns (m: Matrix)
      ensures fresh(m.elems) && m.Valid() && m.rows == rows && m.cols == cols
      ensures IsDiagonal(m.Elems(), rows, cols, 1.0)
    {
      m := Identity(rows, cols);
    }

    /** A matrix whose column `c` is `columns[c]`. */
    static method FromCols(rows: nat, cols: nat, columns: seq<seq<real>>) returns (m: Matrix)
      requires |columns| == cols && Uniform(columns, rows)
      ensures fresh(m.elems) && m.Valid() && m.rows == rows && m.cols == cols
      ensures m.Elems() == Flatten(columns)
      ensures forall r: nat, c: nat | r < rows && c < cols :: m.GetUnsafe(r, c) == columns[c][r]
    {
      FlattenAt(columns, rows);
      var built := FromSlice(rows, cols, Flatten(columns));
      m := built.value;
    }

    /** The columns of this matrix, each a fresh `rows x 1` matrix. */
    method Cols() returns (cs: array<Matrix>)
      requires Valid()
      ensures fresh(cs) && cs.Length == cols
      ensures forall c | 0 <= c < cols ::
        fresh(cs[c].elems) && cs[c].Valid() && cs[c].rows == rows && cs[c].cols == 1
      ensures forall c | 0 <= c < cols :: cs[c].Elems() == ColumnsOf(Elems(), rows, cols)[c]
      ensures forall c, d | 0 <= c < d < cols :: cs[c].elems != cs[d].elems
      ensures forall r: nat, c: nat | r < rows && c < cols :: cs[c].GetUnsafe(r, 0) == GetUnsafe(r, c)
    {
      var placeholder := Default(rows, 1);
      cs := new Matrix[cols](_ => placeholder);
      for ci := 0 to cols
        invariant forall c | 0 <= c < ci ::
          fresh(cs[c].elems) && cs[c].Valid() && cs[c].rows == rows && cs[c].cols == 1
        invariant forall c | 0 <= c < ci :: cs[c].Elems() == ColumnsOf(Elems(), rows, cols)[c]
        invariant forall c, d | 0 <= c < d < ci :: cs[c].elems != cs[d].elems
      {
        var i := ci * rows;
        ColumnBound(rows, cols, ci);
        var v := FromSlice(rows, 1, elems[i .. i + rows]);
        cs[ci] := v.value;
      }
      forall r: nat, c: nat | r < rows && c < cols ensures cs[c].GetUnsafe(r, 0) == GetUnsafe(r, c) {
        ColumnEntry(Elems(), rows, cols, r, c);
      }
    }

    // -------------------------------------------------------------------
    // Element access
    // -------------------------------------------------------------------

    /** The element at `(row, col)`, or `None` when the pair is out of bounds. */
    function Get(row: nat, col: nat): (r: Option<real>)
      requires Valid()
      reads elems
      ensures r.Some? <==> row < rows && col < cols
      ensures r.Some? ==> r.value == Entry(Elems(), rows, cols, row, col)
    {
      match Index(rows, cols, row, col)
      case Some(i) => Some(elems[i])
      case None => None
    }

    /**
      The element at `(row, col)`; the source panics when the pair is out of
      bounds. Reading `m[(row, col)]` is this same access.
    */
    function GetUnsafe(row: nat, col: nat): (r: real)
      requires Valid() && row < rows && col < cols
      reads elems
      ensures Get(row, col) == Some(r)
    {
      elems[Index(rows, cols, row, col).value]
    }

    /**
      Writes `v` through the reference `get_mut` hands out, if it hands one out:
      `found` tells whether `(row, col)` is in bounds, and only then does the
      element there change.
    */
    method GetMut(row: nat, col: nat, v: real) returns (found: bool)
      requires Valid()
      modifies elems
      ensures found <==> row < rows && col < cols
      ensures found ==> Elems() == old(Elems())[Index(rows, cols, row, col).value := v]
      ensures !found ==> Elems() == old(Elems())
    {
      var slot := Index(rows, cols, row, col);
      found := slot.Some?;
      if found {
        elems[slot.value] := v;
      }
    }

    /**
      Writes `v` through the reference `get_mut_unsafe` hands out, as the
      assignment `m[(row, col)] = v` does; the source panics when the pair is
      out of bounds. Reading `(row, col)` afterwards gives `v`, and every other
      element is unchanged.
    */
    method GetMutUnsafe(row: nat, col: nat, v: real)
      requires Valid() && row < rows && col < cols
      modifies elems
      ensures Elems() == old(Elems())[Index(rows, cols, row, col).value := v]
      ensures GetUnsafe(row, col) == v
      ensures forall r: nat, c: nat | r < rows && c < cols && (r != row || c != col) ::
        GetUnsafe(r, c) == old(GetUnsafe(r, c))
    {
      elems[Index(rows, cols, row, col).value] := v;
      forall r: nat, c: nat | r < rows && c < cols
        ensures GetUnsafe(r, c) == if r == row && c == col then v else old(GetUnsafe(r, c))
      {
        UpdateEntry(old(Elems()), rows, cols, row, col, v, r, c);
      }
    }

    // -------------------------------------------------------------------
    // Equality
    // -------------------------------------------------------------------

    /** Two matrices of one shape are equal exactly when they agree at every `(row, col)`. */
    function Equals(other: Matrix): (b: bool)
      requires Valid() && other.Valid() && other.rows == rows && other.cols == cols
      reads elems, other.elems
      ensures b <==> forall r: nat, c: nat | r < rows && c < cols :: GetUnsafe(r, c) == other.GetUnsafe(r, c)
    {
      EntriesDetermine(Elems(), other.Elems(), rows, cols);
      assert forall r: nat, c: nat | r < rows && c < cols ::
        GetUnsafe(r, c) == Entry(Elems(), rows, cols, r, c) && other.GetUnsafe(r, c) == Entry(other.Elems(), rows, cols, r, c);
      elems[..] == other.elems[..]
    }

    // -------------------------------------------------------------------
    // Arithmetic
    // -------------------------------------------------------------------

    /** The elementwise sum of two matrices of one shape. */
    method Add(rhs: Matrix) returns (m: Matrix)
      requires Valid() && rhs.Valid() && rhs.rows == rows && rhs.cols == cols
      ensures fresh(m.elems) && m.Valid() && m.rows == rows && m.cols == cols
      ensures forall i | 0 <= i < m.elems.Length :: m.elems[i] == elems[i] + rhs.elems[i]
      ensures forall r: nat, c: nat | r < rows && c < cols ::
        m.GetUnsafe(r, c) == GetUnsafe(r, c) + rhs.GetUnsafe(r, c)
    {
      var sum := new real[elems.Length](i requires 0 <= i < elems.Length reads elems => elems[i]);
      for i := 0 to sum.Length
        invariant forall j | 0 <= j < i :: sum[j] == elems[j] + rhs.elems[j]
        invariant forall j | i <= j < sum.Length :: sum[j] == elems[j]
      {
        sum[i] := sum[i] + rhs.elems[i];
      }
      m := new Matrix.FromArray(rows, cols, sum[..]);
    }

    /** The elementwise difference of two matrices of one shape. */
    method Sub(rhs: Matrix) returns (m: Matrix)
      requires Valid() && rhs.Valid() && rhs.rows == rows && rhs.cols == cols
      ensures fresh(m.elems) && m.Valid() && m.rows == rows && m.cols == cols
      ensures forall i | 0 <= i < m.elems.Length :: m.elems[i] == elems[i] - rhs.elems[i]
      ensures forall r: nat, c: nat | r < rows && c < cols ::
        m.GetUnsafe(r, c) == GetUnsafe(r, c) - rhs.GetUnsafe(r, c)
    {
      var diff := new real[elems.Length](i requires 0 <= i < elems.Length reads elems => elems[i]);
      for i := 0 to diff.Length
        invariant forall j | 0 <= j < i :: diff[j] == elems[j] - rhs.elems[j]
        invariant forall j | i <= j < diff.Length :: diff[j] == elems[j]
      {
        diff[i] := diff[i] - rhs.elems[i];
      }
      m := new Matrix.FromArray(rows, cols, diff[..]);
    }

    /** Every element multiplied by the scalar `k`. */
    method Scale(k: real) returns (m: Matrix)
      requires Valid()
      ensures fresh(m.elems) && m.Valid() && m.rows == rows && m.cols == cols
      ensures forall i | 0 <= i < m.elems.Length :: m.elems[i] == elems[i] * k
      ensures forall r: nat, c: nat | r < rows && c < cols :: m.GetUnsafe(r, c) == GetUnsafe(r, c) * k
    {
      var s := Elems();
      m := new Matrix.FromArray(rows, cols, seq(|s|, i requires 0 <= i < |s| => s[i] * k));
    }

    /**
      The product of this `rows x cols` matrix and a `cols x rhs.cols` matrix:
      a `rows x rhs.cols` matrix whose `(row, col)` is the sum over `cell` of
      `this[(row, cell)] * rhs[(cell, col)]`.
    */
    method Mul(rhs: Matrix) returns (m: Matrix)
      requires Valid() && rhs.Valid() && rhs.rows == cols
      ensures fresh(m.elems) && m.Valid() && m.rows == rows && m.cols == rhs.cols
      ensures forall r: nat, c: nat | r < rows && c < rhs.cols ::
        m.GetUnsafe(r, c) == ProductEntry(Elems(), rhs.Elems(), rows, cols, rhs.cols, r, c)
    {
      m := Empty(rows, rhs.cols);
      forall r: nat, c: nat | r < rows && c < rhs.cols ensures m.GetUnsafe(r, c) == 0.0 {
      }
      for col := 0 to rhs.cols
        invariant forall r: nat, c: nat | r < rows && c < rhs.cols ::
          m.GetUnsafe(r, c) == if c < col then ProductEntry(Elems(), rhs.Elems(), rows, cols, rhs.cols, r, c) else 0.0
      {
        for row := 0 to rows
          invariant forall r: nat, c: nat | r < rows && c < rhs.cols ::
            m.GetUnsafe(r, c) ==
              if c < col || (c == col && r < row)
              then ProductEntry(Elems(), rhs.Elems(), rows, cols, rhs.cols, r, c)
              else 0.0
        {
          var sum := 0.0;
          for cell := 0 to cols
            invariant sum == DotPrefix(Elems(), rhs.Elems(), rows, cols, rhs.cols, row, col, cell)
          {
            sum := sum + GetUnsafe(row, cell) * rhs.GetUnsafe(cell, col);
          }
          m.GetMutUnsafe(row, col, sum);
        }
      }
    }
  }

  // The crate's test examples, as a client sees them through the contracts
  // above. Buffers handed to `FromArray` are read column by column, so the
  // slot after `(0, 0)` is `(1, 0)`.

  /** `matrix_array_sanity`: the empty 2 x 2 matrix is all zeros. */
  method MatrixArraySanity()
  {
    var z := Matrix.Empty(2, 2);
    assert z.Elems() == [0.0, 0.0, 0.0, 0.0];
  }

  /** `matrix_array_index`: the second buffer slot is `(1, 0)`, not `(0, 1)`. */
  method MatrixArrayIndex()
  {
    var m := new Matrix.FromArray(2, 2, [0.5, 10.0, 0.0, 2.0]);
    assert m.GetUnsafe(0, 0) == 0.5 && m.GetUnsafe(1, 0) == 10.0;
    assert m.GetUnsafe(0, 1) == 0.0 && m.GetUnsafe(1, 1) == 2.0;
  }

  /** `matrix_mul`: entry `(0, 0)` of the 2 x 2 product under column-major reading. */
  method MatrixMul()
  {
    var x := new Matrix.FromArray(2, 2, [0.1, 92.3, 653.0, 2.0]);
    var y := new Matrix.FromArray(2, 2, [29.0, 0.2, 9.2, 1.2]);
    var product := x.Mul(y);
    assert product.GetUnsafe(0, 0) == 0.1 * 29.0 + 653.0 * 0.2 == 133.5;
  }

  /** `matrix_size_mul`: a 3 x 3 matrix times a 3-row vector is a 3-row vector. */
  method MatrixSizeMul()
  {
    var a := [19.3, 193.0, 12.0, 10.2, 19.3, 1.0, 0.2, 10.0, 8.1];
    var b := [1.9, 1.1, 0.5];
    var t := new Matrix.FromArray(3, 3, a);
    var v := new Matrix.FromArray(3, 1, b);
    var tv := t.Mul(v);
    assert tv.rows == 3 && tv.cols == 1;
    assert DotPrefix(a, b, 3, 3, 1, 0, 0, 1) == 19.3 * 1.9;
    assert DotPrefix(a, b, 3, 3, 1, 0, 0, 2) == 19.3 * 1.9 + 10.2 * 1.1;
    assert DotPrefix(a, b, 3, 3, 1, 0, 0, 3) == 19.3 * 1.9 + 10.2 * 1.1 + 0.2 * 0.5;
    assert tv.GetUnsafe(0, 0) == 47.99;
  }

  /** `matrix_scalar_mul`: doubling a 2 x 2 matrix doubles every slot. */
  method MatrixScalarMul()
  {
    var a := new Matrix.FromArray(2, 2, [1.0, 2.0, 3.0, 4.0]);
    var doubled := a.Scale(2.0);
    assert doubled.Elems() == [2.0, 4.0, 6.0, 8.0];
  }

  /** Out-of-bounds reads and a mis-sized slice fail without a matrix. */
  method FailurePaths()
  {
    var m := Matrix.Empty(2, 2);
    assert m.Get(5, 5) == None;
    var short := Matrix.FromSlice(2, 2, [1.0, 2.0, 3.0]);
    assert short == None;
  }
}
