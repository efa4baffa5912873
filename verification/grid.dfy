/**
 * The grid indexer: the maze is a box of `levels x rows x cols` cells stored in
 * one linear array, and `Pos` flattens a (level, row, col) triple into an index
 * of that array.  `CoordOf` is the inverse mapping; together they show that
 * `Pos` is a bijection between the in-bounds triples and `[0, Size)`.
 */
module Grid {

  /** The extent of the maze along each axis. */
  datatype Dims = Dims(levels: int, rows: int, cols: int)

  /** A cell position: (level, row, column). */
  datatype Coord = Coord(level: int, row: int, col: int)

  predicate Positive(d: Dims) {
    d.levels > 0 && d.rows > 0 && d.cols > 0
  }

  predicate InBounds(d: Dims, c: Coord) {
    && 0 <= c.level < d.levels
    && 0 <= c.row < d.rows
    && 0 <= c.col < d.cols
  }

  /** The number of cells allocated for the maze. */
  function Size(d: Dims): int {
    d.levels * d.rows * d.cols
  }

  /** Row-major flattening with the level as the most significant digit. */
  function Pos(d: Dims, c: Coord): (i: int)
    ensures InBounds(d, c) ==> 0 <= i < Size(d)
  {
    PosBounds(d, c);
    c.level * d.rows * d.cols + c.row * d.cols + c.col
  }

  /** The coordinate stored at linear index `i`. */
  function CoordOf(d: Dims, i: int): (c: Coord)
    requires Positive(d)
    ensures 0 <= i < Size(d) ==> InBounds(d, c) && Pos(d, c) == i
  {
    CoordOfBounds(d, i);
    Coord((i / d.cols) / d.rows, (i / d.cols) % d.rows, i % d.cols)
  }

  /** Lexicographic order on coordinates: the order in which nested
      level/row/column loops visit the cells. */
  predicate Before(a: Coord, b: Coord) {
    || a.level < b.level
    || (a.level == b.level && a.row < b.row)
    || (a.level == b.level && a.row == b.row && a.col < b.col)
  }

  // ---------------------------------------------------------------------------
  // Arithmetic helpers

  /** Multiplying by a non-negative factor preserves `<=`. */
  lemma MulLe(x: int, y: int, n: int)
    requires x <= y && n >= 0
    ensures x * n <= y * n
  {
    assert y * n - x * n == (y - x) * n;
  }

  /** A two-digit mixed-radix number `a*n + b` stays below `m*n`. */
  lemma MixBounds(a: int, m: int, b: int, n: int)
    requires 0 <= a < m && 0 <= b < n
    ensures 0 <= a * n + b < m * n
  {
    MulLe(0, a, n);
    MulLe(a, m - 1, n);
    assert (m - 1) * n + n == m * n;
  }

  /** Mixed-radix numbers with in-range low digits compare by their high digit first. */
  lemma MixOrder(a: int, b: int, a': int, b': int, n: int)
    requires 0 <= b < n && 0 <= b' < n
    ensures a * n + b < a' * n + b' <==> a < a' || (a == a' && b < b')
  {
    if a < a' {
      MulLe(a + 1, a', n);
      assert (a + 1) * n == a * n + n;
    } else if a > a' {
      MulLe(a' + 1, a, n);
      assert (a' + 1) * n == a' * n + n;
    }
  }

  /** Euclidean division is determined by quotient and remainder. */
  lemma DivModUnique(a: int, b: int, q: int, r: int)
    requires b > 0 && 0 <= r < b && a == q * b + r
    ensures a / b == q && a % b == r
  {
    var q', r' := a / b, a % b;
    assert a == q' * b + r';
    MixOrder(q, r, q', r', b);
    MixOrder(q', r', q, r, b);
  }

  lemma PosHorner(d: Dims, c: Coord)
    ensures Pos(d, c) == (c.level * d.rows + c.row) * d.cols + c.col
  {
    assert c.level * d.rows * d.cols == (c.level * d.rows) * d.cols;
    assert (c.level * d.rows + c.row) * d.cols == c.level * d.rows * d.cols + c.row * d.cols;
  }

  lemma PosBounds(d: Dims, c: Coord)
    ensures InBounds(d, c) ==> 0 <= c.level * d.rows * d.cols + c.row * d.cols + c.col < Size(d)
  {
    if !InBounds(d, c) { return; }
    MixBounds(c.level, d.levels, c.row, d.rows);
    MixBounds(c.level * d.rows + c.row, d.levels * d.rows, c.col, d.cols);
    assert (c.level * d.rows + c.row) * d.cols == c.level * d.rows * d.cols + c.row * d.cols;
  }

  lemma CoordOfBounds(d: Dims, i: int)
    requires Positive(d)
    ensures var c := Coord((i / d.cols) / d.rows, (i / d.cols) % d.rows, i % d.cols);
            0 <= i < Size(d) ==> InBounds(d, c) && c.level * d.rows * d.cols + c.row * d.cols + c.col == i
  {
    if !(0 <= i < Size(d)) { return; }
    var q := i / d.cols;
    var l, r, k := q / d.rows, q % d.rows, i % d.cols;
    assert i == q * d.cols + k;
    assert q == l * d.rows + r;
    MixOrder(q, k, d.levels * d.rows, 0, d.cols);
    assert 0 <= q;
    MixOrder(l, r, d.levels, 0, d.rows);
    assert 0 <= l;
    PosHorner(d, Coord(l, r, k));
  }

  // ---------------------------------------------------------------------------
  // The indexer is a bijection

  /** Decoding an encoded in-bounds coordinate gives it back. */
  lemma CoordOfPos(d: Dims, c: Coord)
    requires Positive(d) && InBounds(d, c)
    ensures CoordOf(d, Pos(d, c)) == c
  {
    var i := Pos(d, c);
    PosHorner(d, c);
    DivModUnique(i, d.cols, c.level * d.rows + c.row, c.col);
    DivModUnique(i / d.cols, d.rows, c.level, c.row);
  }

  /** Distinct in-bounds coordinates occupy distinct cells. */
  lemma PosInjective(d: Dims, a: Coord, b: Coord)
    requires Positive(d) && InBounds(d, a) && InBounds(d, b)
    ensures Pos(d, a) == Pos(d, b) <==> a == b
  {
    if Pos(d, a) == Pos(d, b) {
      CoordOfPos(d, a);
      CoordOfPos(d, b);
    }
  }

  /** Every index of the store is the position of exactly one coordinate. */
  lemma PosSurjective(d: Dims, i: int)
    requires Positive(d) && 0 <= i < Size(d)
    ensures exists c :: InBounds(d, c) && Pos(d, c) == i
  {
    var c := CoordOf(d, i);
    assert InBounds(d, c) && Pos(d, c) == i;
  }

  /** Linear order of the store is the visiting order of the nested
      level/row/column loops. */
  lemma PosMonotone(d: Dims, a: Coord, b: Coord)
    requires Positive(d) && InBounds(d, a) && InBounds(d, b)
    ensures Before(a, b) <==> Pos(d, a) < Pos(d, b)
  {
    PosHorner(d, a);
    PosHorner(d, b);
    var qa, qb := a.level * d.rows + a.row, b.level * d.rows + b.row;
    MixOrder(a.level, a.row, b.level, b.row, d.rows);
    MixOrder(b.level, b.row, a.level, a.row, d.rows);
    assert qa == qb <==> a.level == b.level && a.row == b.row;
    MixOrder(qa, a.col, qb, b.col, d.cols);
  }
}
