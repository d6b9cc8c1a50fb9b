/** Row-major tables kept in one flat buffer. */
module Tables {

  lemma InRow(t: nat, v: nat, rows: nat, width: nat)
    requires t < rows && v < width
    ensures 0 <= t * width + v < rows * width
  {
    assert (t + 1) * width <= rows * width;
  }

  lemma RowEnd(t: nat, rows: nat, width: nat)
    requires t < rows
    ensures t * width + width == (t + 1) * width <= rows * width
  {
  }

  /** Quotient and remainder are determined by the division equation. */
  lemma DivModIs(k: nat, d: nat, q: nat, r: nat)
    requires d > 0 && r < d && k == q * d + r
    ensures k % d == r
  {
    var q2, r2 := k / d, k % d;
    assert q2 * d + r2 == k;
    if q2 < q {
      RowEnd(q2, q, d);
    } else if q < q2 {
      RowEnd(q, q2, d);
    }
  }

  ghost predicate Wide(rows: seq<seq<real>>, width: nat) {
    forall t :: 0 <= t < |rows| ==> |rows[t]| == width
  }

  /** The rows laid out one after the other. */
  function Flat(rows: seq<seq<real>>): seq<real> {
    if rows == [] then [] else Flat(rows[..|rows| - 1]) + rows[|rows| - 1]
  }

  lemma {:induction false} FlatLength(rows: seq<seq<real>>, width: nat)
    requires Wide(rows, width)
    ensures |Flat(rows)| == |rows| * width
  {
    if rows != [] {
      FlatLength(rows[..|rows| - 1], width);
      assert (|rows| - 1) * width + width == |rows| * width;
    }
  }

  /** Entry `(t, v)` sits at offset `t * width + v`. */
  lemma {:induction false} FlatAt(rows: seq<seq<real>>, width: nat, t: nat, v: nat)
    requires Wide(rows, width) && t < |rows| && v < width
    ensures |Flat(rows)| == |rows| * width && t * width + v < |Flat(rows)|
    ensures Flat(rows)[t * width + v] == rows[t][v]
  {
    FlatLength(rows, width);
    InRow(t, v, |rows|, width);
    var init := rows[..|rows| - 1];
    FlatLength(init, width);
    if t < |rows| - 1 {
      FlatAt(init, width, t, v);
    }
  }

  lemma FlatAppend(rows: seq<seq<real>>, row: seq<real>)
    ensures Flat(rows + [row]) == Flat(rows) + row
  {
    assert (rows + [row])[..|rows|] == rows;
  }

  lemma {:induction false} FlatPrepend(row: seq<real>, rows: seq<seq<real>>)
    ensures Flat([row] + rows) == row + Flat(rows)
  {
    if rows == [] {
      assert [row] + rows == [] + [row];
      FlatAppend([], row);
      assert Flat([]) == [];
    } else {
      var init, last := rows[..|rows| - 1], rows[|rows| - 1];
      FlatPrepend(row, init);
      assert [row] + rows == ([row] + init) + [last];
      FlatAppend([row] + init, last);
      assert (row + Flat(init)) + last == row + (Flat(init) + last);
    }
  }
}
