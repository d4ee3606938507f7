/**
  The column-major layout of a `rows x cols` matrix in a flat buffer of
  `rows * cols` elements, and the value-level specifications the matrix
  operations are proved against. Elements are exact `real`s.
*/
module ColumnMajor {
  import opened Wrappers

  // ---------------------------------------------------------------------
  // Arithmetic facts about the linearization
  // ---------------------------------------------------------------------

  /** Division and remainder recover quotient and remainder of `q * d + r`. */
  lemma DivModOf(q: nat, r: nat, d: nat)
    requires r < d
    ensures (q * d + r) / d == q && (q * d + r) % d == r
  {
    var x := q * d + r;
    var t := x / d - q;
    assert d * t == r - x % d;
  }

  /** A slot of an in-bounds pair, and the whole column it sits in, lie inside the buffer. */
  lemma SlotBound(rows: nat, cols: nat, row: nat, col: nat)
    requires row < rows && col < cols
    ensures col * rows + row < col * rows + rows <= rows * cols
  {
    ColumnBound(rows, cols, col);
  }

  /** The slots of column `col` lie inside the buffer. */
  lemma ColumnBound(rows: nat, cols: nat, col: nat)
    requires col < cols
    ensures col * rows + rows <= rows * cols
  {
    assert col * rows + rows == (col + 1) * rows;
    assert (col + 1) * rows <= cols * rows;
  }

  // ---------------------------------------------------------------------
  // Indexing
  // ---------------------------------------------------------------------

  /**
    The buffer slot of `(row, col)`: `None` when the pair is out of bounds.
    The slot is column-major: dividing it by `rows` gives back the column and
    the remainder gives back the row.
  */
  function Index(rows: nat, cols: nat, row: nat, col: nat): (r: Option<nat>)
    ensures r.Some? <==> row < rows && col < cols
    ensures r.Some? ==> r.value < rows * cols
    ensures r.Some? ==> r.value / rows == col && r.value % rows == row
  {
    if row < rows && col < cols then
      SlotBound(rows, cols, row, col);
      DivModOf(col, row, rows);
      Some(col * rows + row)
    else
      None
  }

  /** Distinct in-bounds pairs have distinct slots. */
  lemma IndexInjective(rows: nat, cols: nat, r1: nat, c1: nat, r2: nat, c2: nat)
    requires Index(rows, cols, r1, c1).Some?
    requires Index(rows, cols, r1, c1) == Index(rows, cols, r2, c2)
    ensures r1 == r2 && c1 == c2
  {
  }

  /** Every slot of the buffer is the slot of exactly the pair its quotient and remainder name. */
  lemma IndexOnto(rows: nat, cols: nat, k: nat)
    requires k < rows * cols
    ensures rows > 0
    ensures Index(rows, cols, k % rows, k / rows) == Some(k)
  {
    var q, r := k / rows, k % rows;
    assert k == q * rows + r;
  }

  /** The element at `(row, col)` of a buffer `s`. */
  function Entry(s: seq<real>, rows: nat, cols: nat, row: nat, col: nat): real
    requires |s| == rows * cols && row < rows && col < cols
  {
    s[Index(rows, cols, row, col).value]
  }

  /** Two buffers of one shape are equal exactly when they agree at every `(row, col)`. */
  lemma EntriesDetermine(s: seq<real>, t: seq<real>, rows: nat, cols: nat)
    requires |s| == |t| == rows * cols
    ensures s == t <==>
      forall r: nat, c: nat | r < rows && c < cols :: Entry(s, rows, cols, r, c) == Entry(t, rows, cols, r, c)
  {
    if forall r: nat, c: nat | r < rows && c < cols :: Entry(s, rows, cols, r, c) == Entry(t, rows, cols, r, c) {
      forall k | 0 <= k < |s| ensures s[k] == t[k] {
        IndexOnto(rows, cols, k);
        assert Entry(s, rows, cols, k % rows, k / rows) == Entry(t, rows, cols, k % rows, k / rows);
      }
    }
  }

  /** Writing `v` into the slot of `(row, col)` changes the entry there to `v` and no other entry. */
  lemma UpdateEntry(s: seq<real>, rows: nat, cols: nat, row: nat, col: nat, v: real, r: nat, c: nat)
    requires |s| == rows * cols && row < rows && col < cols && r < rows && c < cols
    ensures Entry(s[Index(rows, cols, row, col).value := v], rows, cols, r, c)
         == if r == row && c == col then v else Entry(s, rows, cols, r, c)
  {
    if r != row || c != col {
      if Index(rows, cols, r, c) == Index(rows, cols, row, col) {
        IndexInjective(rows, cols, r, c, row, col);
      }
    }
  }

  // ---------------------------------------------------------------------
  // Diagonal matrices
  // ---------------------------------------------------------------------

  /** `s` holds `e` at every `(i, i)` and `0.0` everywhere else. */
  ghost predicate IsDiagonal(s: seq<real>, rows: nat, cols: nat, e: real)
    requires |s| == rows * cols
  {
    forall r: nat, c: nat | r < rows && c < cols :: Entry(s, rows, cols, r, c) == if r == c then e else 0.0
  }

  // ---------------------------------------------------------------------
  // Columns
  // ---------------------------------------------------------------------

  /** The `cols` columns of a buffer, each the `rows` consecutive slots that hold it. */
  function ColumnsOf(s: seq<real>, rows: nat, cols: nat): (cs: seq<seq<real>>)
    requires |s| == rows * cols
    ensures |cs| == cols
    ensures forall c | 0 <= c < cols :: |cs[c]| == rows
  {
    seq(cols, c requires 0 <= c < cols => Column(s, rows, cols, c))
  }

  /** Column `c` of a buffer: the `rows` consecutive slots from `c * rows`. */
  function Column(s: seq<real>, rows: nat, cols: nat, c: nat): (col: seq<real>)
    requires |s| == rows * cols && c < cols
    ensures |col| == rows
  {
    ColumnBound(rows, cols, c);
    s[c * rows .. c * rows + rows]
  }

  /** Element `r` of column `c` is the matrix entry at `(r, c)`. */
  lemma ColumnEntry(s: seq<real>, rows: nat, cols: nat, r: nat, c: nat)
    requires |s| == rows * cols && r < rows && c < cols
    ensures ColumnsOf(s, rows, cols)[c][r] == Entry(s, rows, cols, r, c)
  {
    ColumnBound(rows, cols, c);
  }

  /** The columns `cs` laid one after the other. */
  function Flatten(cs: seq<seq<real>>): seq<real>
  {
    if cs == [] then [] else Flatten(cs[..|cs| - 1]) + cs[|cs| - 1]
  }

  /** Every column of `cs` has `rows` elements. */
  ghost predicate Uniform(cs: seq<seq<real>>, rows: nat)
  {
    forall c | 0 <= c < |cs| :: |cs[c]| == rows
  }

  /** Laying `cols` columns of `rows` elements end to end gives a `rows x cols` buffer whose `(r, c)` is `cs[c][r]`. */
  lemma {:induction false} FlattenAt(cs: seq<seq<real>>, rows: nat)
    requires Uniform(cs, rows)
    ensures |Flatten(cs)| == rows * |cs|
    ensures forall c, r | 0 <= c < |cs| && 0 <= r < rows :: Entry(Flatten(cs), rows, |cs|, r, c) == cs[c][r]
  {
    if cs != [] {
      var n := |cs| - 1;
      var init := cs[..n];
      FlattenAt(init, rows);
      assert rows * |cs| == rows * n + rows;
      forall c, r | 0 <= c < |cs| && 0 <= r < rows
        ensures Entry(Flatten(cs), rows, |cs|, r, c) == cs[c][r]
      {
        var k := Index(rows, |cs|, r, c).value;
        assert k == c * rows + r;
        if c < n {
          SlotBound(rows, n, r, c);
          assert Flatten(cs)[k] == Flatten(init)[k];
          assert Entry(Flatten(init), rows, n, r, c) == init[c][r];
        } else {
          assert k == rows * n + r;
          assert Flatten(cs)[k] == cs[n][r];
        }
      }
    }
  }

  /** Flattening the columns of a matrix gives the matrix back. */
  lemma ColumnsRoundTrip(s: seq<real>, rows: nat, cols: nat)
    requires |s| == rows * cols
    ensures Flatten(ColumnsOf(s, rows, cols)) == s
  {
    var cs := ColumnsOf(s, rows, cols);
    FlattenAt(cs, rows);
    forall r: nat, c: nat | r < rows && c < cols
      ensures Entry(Flatten(cs), rows, cols, r, c) == Entry(s, rows, cols, r, c)
    {
      ColumnEntry(s, rows, cols, r, c);
    }
    EntriesDetermine(Flatten(cs), s, rows, cols);
  }

  /** Taking the columns of a flattened sequence of columns gives those columns back. */
  lemma FlattenRoundTrip(cs: seq<seq<real>>, rows: nat)
    requires Uniform(cs, rows)
    ensures |Flatten(cs)| == rows * |cs|
    ensures ColumnsOf(Flatten(cs), rows, |cs|) == cs
  {
    FlattenAt(cs, rows);
    var back := ColumnsOf(Flatten(cs), rows, |cs|);
    forall c | 0 <= c < |cs| ensures back[c] == cs[c] {
      forall r | 0 <= r < rows ensures back[c][r] == cs[c][r] {
        ColumnEntry(Flatten(cs), rows, |cs|, r, c);
      }
    }
  }

  // ---------------------------------------------------------------------
  // Matrix product
  // ---------------------------------------------------------------------

  /**
    The sum, over the first `k` cells, of `a[(row, cell)] * b[(cell, col)]`
    for an `m x n` buffer `a` and an `n x p` buffer `b`, accumulated from
    cell 0 upwards.
  */
  function DotPrefix(a: seq<real>, b: seq<real>, m: nat, n: nat, p: nat, row: nat, col: nat, k: nat): real
    requires |a| == m * n && |b| == n * p && row < m && col < p && k <= n
  {
    if k == 0 then 0.0
    else DotPrefix(a, b, m, n, p, row, col, k - 1) + Entry(a, m, n, row, k - 1) * Entry(b, n, p, k - 1, col)
  }

  /** Entry `(row, col)` of the product of `a` (`m x n`) and `b` (`n x p`). */
  function ProductEntry(a: seq<real>, b: seq<real>, m: nat, n: nat, p: nat, row: nat, col: nat): real
    requires |a| == m * n && |b| == n * p && row < m && col < p
  {
    DotPrefix(a, b, m, n, p, row, col, n)
  }

  /** Multiplying by the identity on the left leaves every entry of `b` unchanged. */
  lemma IdentityLeftNeutral(a: seq<real>, b: seq<real>, n: nat, p: nat, row: nat, col: nat)
    requires |a| == n * n && |b| == n * p && row < n && col < p
    requires IsDiagonal(a, n, n, 1.0)
    ensures ProductEntry(a, b, n, n, p, row, col) == Entry(b, n, p, row, col)
  {
    IdentityLeftPrefix(a, b, n, p, row, col, n);
  }

  lemma {:induction false} IdentityLeftPrefix(a: seq<real>, b: seq<real>, n: nat, p: nat, row: nat, col: nat, k: nat)
    requires |a| == n * n && |b| == n * p && row < n && col < p && k <= n
    requires IsDiagonal(a, n, n, 1.0)
    ensures DotPrefix(a, b, n, n, p, row, col, k) == if row < k then Entry(b, n, p, row, col) else 0.0
  {
    if k > 0 {
      IdentityLeftPrefix(a, b, n, p, row, col, k - 1);
      assert Entry(a, n, n, row, k - 1) == if row == k - 1 then 1.0 else 0.0;
    }
  }

  /** Multiplying by the identity on the right leaves every entry of `a` unchanged. */
  lemma IdentityRightNeutral(a: seq<real>, b: seq<real>, m: nat, n: nat, row: nat, col: nat)
    requires |a| == m * n && |b| == n * n && row < m && col < n
    requires IsDiagonal(b, n, n, 1.0)
    ensures ProductEntry(a, b, m, n, n, row, col) == Entry(a, m, n, row, col)
  {
    IdentityRightPrefix(a, b, m, n, row, col, n);
  }

  lemma {:induction false} IdentityRightPrefix(a: seq<real>, b: seq<real>, m: nat, n: nat, row: nat, col: nat, k: nat)
    requires |a| == m * n && |b| == n * n && row < m && col < n && k <= n
    requires IsDiagonal(b, n, n, 1.0)
    ensures DotPrefix(a, b, m, n, n, row, col, k) == if col < k then Entry(a, m, n, row, col) else 0.0
  {
    if k > 0 {
      IdentityRightPrefix(a, b, m, n, row, col, k - 1);
      assert Entry(b, n, n, k - 1, col) == if k - 1 == col then 1.0 else 0.0;
    }
  }
}
