/** Division and rows of equal length, where both sides are variables. */
module Arith {

  lemma LessRow(row: int, rows: int, stride: nat)
    requires row < rows
    ensures row * stride + stride <= rows * stride
  {
    var more := rows - row - 1;
    Distribute(row + 1, more, stride);
    Distribute(row, 1, stride);
    NotNegative(more, stride);
  }

  lemma Distribute(a: int, b: int, c: int)
    ensures (a + b) * c == a * c + b * c
  {}

  lemma NotNegative(a: int, b: int)
    requires a >= 0 && b >= 0
    ensures a * b >= 0
  {}

  lemma DivModExact(a: nat, b: nat)
    requires b > 0
    ensures a / b * b + a % b == a && a % b < b
  {}

  lemma QuotientIs(w: nat, d: nat, q: nat, r: nat)
    requires r < d && w == q * d + r
    ensures w / d == q && w % d == r
  {
    DivModExact(w, d);
    if w / d < q {
      LessRow(w / d, q, d);
      assert false;
    }
    if w / d > q {
      LessRow(q, w / d, d);
      assert false;
    }
  }

  lemma DivDiv(w: nat, a: nat, b: nat)
    requires a > 0 && b > 0
    ensures b * a > 0 && w / (b * a) == w / a / b
  {
    var x := w / a;
    var q, r := x / b, x % b;
    DivModExact(w, a);
    DivModExact(x, b);
    LessRow(r, b, a);
    assert w == (q * b + r) * a + w % a;
    assert (q * b + r) * a == q * (b * a) + r * a;
    QuotientIs(w, b * a, q, r * a + w % a);
  }

  lemma RowIndexBound(k: nat, rows: nat, cols: nat)
    requires cols > 0 && k < rows * cols
    ensures k / cols < rows && k % cols < cols
  {
    assert k == k / cols * cols + k % cols;
    if k / cols >= rows {
      LessRow(rows - 1, k / cols, cols);
      assert false;
    }
  }

  /** A row and a column of a grid of rows of one length name one place each. */
  lemma SamePlace(row: nat, col: nat, y: nat, x: nat, stride: nat)
    requires col < stride && x < stride
    ensures row * stride + col == y * stride + x <==> row == y && col == x
  {
    if row < y { LessRow(row, y, stride); }
    if y < row { LessRow(y, row, stride); }
  }

  lemma ModNext(k: nat, n: nat)
    requires k > 0 && n > 0
    ensures k % n == if (k - 1) % n == n - 1 then 0 else (k - 1) % n + 1
  {
    var q, r := (k - 1) / n, (k - 1) % n;
    DivModExact(k - 1, n);
    if r == n - 1 {
      QuotientIs(k, n, q + 1, 0);
    } else {
      QuotientIs(k, n, q, r + 1);
    }
  }
}
