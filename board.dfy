/** The grid of the world: cells identified by integer indices, a registry that
    interns one canonical cell object per index pair, and the square window of
    cells around a point. Positions are taken as already-floored grid indices. */
module Grid {

  /** A grid cell. Cells are objects: two cells with equal indices may still be
      different objects, which is why the board interns them. */
  class Cell {
    const i: int
    const j: int

    constructor (i: int, j: int)
      ensures this.i == i && this.j == j
    {
      this.i := i;
      this.j := j;
    }
  }

  /** The registry key of a cell: its index pair (the board encodes its keys
      as the string "i,j", which is injective on integers). */
  type Key = (int, int)

  function KeyOf(c: Cell): Key {
    (c.i, c.j)
  }

  /** Cell indices (o.0 + di, o.1 + dj) for dj in [-r, hi), dj ascending: the
      cells pushed by one pass of the inner loop of the window enumeration. */
  function Row(o: Key, r: int, di: int, hi: int): seq<Key>
    decreases hi + r
  {
    if hi <= -r then [] else Row(o, r, di, hi - 1) + [(o.0 + di, o.1 + hi - 1)]
  }

  /** The rows di in [-r, hi), di ascending, each a complete inner pass. */
  function Rows(o: Key, r: int, hi: int): seq<Key>
    decreases hi + r
  {
    if hi <= -r then [] else Rows(o, r, hi - 1) + Row(o, r, hi - 1, r)
  }

  /** The keys of the visibility window of radius r around origin o, in the
      order in which the board enumerates them. */
  function Window(o: Key, r: int): seq<Key> {
    Rows(o, r, r)
  }

  /** Side length of the window: 2r cells, or none at all when r <= 0. */
  function Side(r: int): nat {
    if r > 0 then 2 * r else 0
  }

  lemma DivModOf(n: int, d: int, q: int, m: int)
    requires d > 0 && 0 <= m < d && n == q * d + m
    ensures n / d == q && n % d == m
  {
    var q', m' := n / d, n % d;
    var t := q - q';
    assert t * d == m' - m by {
      assert q * d - q' * d == (q - q') * d;
    }
  }

  /** One inner pass yields hi + r cells, the k-th being (o.0 + di, o.1 - r + k). */
  lemma {:induction false} RowShape(o: Key, r: int, di: int, hi: int)
    requires hi >= -r
    ensures |Row(o, r, di, hi)| == hi + r
    ensures forall k :: 0 <= k < hi + r ==> Row(o, r, di, hi)[k] == (o.0 + di, o.1 - r + k)
    decreases hi + r
  {
    if hi > -r {
      RowShape(o, r, di, hi - 1);
    }
  }

  /** The first hi + r rows hold (hi + r) * 2r cells; cell n lies in row n / 2r at
      column n % 2r. */
  lemma {:induction false} RowsShape(o: Key, r: int, hi: int)
    requires r > 0 && hi >= -r
    ensures |Rows(o, r, hi)| == (hi + r) * (2 * r)
    ensures forall n :: 0 <= n < |Rows(o, r, hi)| ==>
      Rows(o, r, hi)[n] == (o.0 - r + n / (2 * r), o.1 - r + n % (2 * r))
    decreases hi + r
  {
    if hi > -r {
      var side := 2 * r;
      var q := hi - 1 + r;
      RowsShape(o, r, hi - 1);
      RowShape(o, r, hi - 1, r);
      var before, row := Rows(o, r, hi - 1), Row(o, r, hi - 1, r);
      assert Rows(o, r, hi) == before + row;
      assert |before| == q * side;
      assert |before| + |row| == (hi + r) * side by {
        assert q * side + side == (q + 1) * side;
      }
      forall n | 0 <= n < |before| + |row|
        ensures (before + row)[n] == (o.0 - r + n / side, o.1 - r + n % side)
      {
        if n >= |before| {
          DivModOf(n, side, q, n - |before|);
        }
      }
    }
  }

  /** The window holds exactly (2r) * (2r) cells, and none when r <= 0. */
  lemma WindowLength(o: Key, r: int)
    ensures |Window(o, r)| == Side(r) * Side(r)
  {
    if r > 0 {
      RowsShape(o, r, r);
      assert (r + r) == 2 * r;
    }
  }

  /** Order of the window: index n is offset (n / 2r - r, n % 2r - r) from the
      origin, so the row offset di is the outer, ascending coordinate and the
      column offset dj the inner, ascending one. */
  lemma WindowAt(o: Key, r: int, n: int)
    requires r > 0 && 0 <= n < (2 * r) * (2 * r)
    ensures |Window(o, r)| == (2 * r) * (2 * r)
    ensures Window(o, r)[n] == (o.0 - r + n / (2 * r), o.1 - r + n % (2 * r))
  {
    RowsShape(o, r, r);
    assert (r + r) == 2 * r;
  }

  /** An index below side * side has a quotient by side below side. */
  lemma QuotientBelow(n: int, side: int)
    requires side > 0 && 0 <= n < side * side
    ensures 0 <= n / side < side
  {
  }

  /** The row-major index of the offset pair (q, m) in a square of the given side. */
  lemma IndexBelow(q: int, m: int, side: int)
    requires 0 <= q < side && 0 <= m < side
    ensures 0 <= q * side + m < side * side
  {
    assert q * side <= (side - 1) * side == side * side - side;
  }

  /** A key is in the window iff both of its offsets from the origin lie in [-r, r). */
  lemma WindowMembership(o: Key, r: int, k: Key)
    ensures k in Window(o, r) <==> -r <= k.0 - o.0 < r && -r <= k.1 - o.1 < r
  {
    var w := Window(o, r);
    WindowLength(o, r);
    if r > 0 {
      var side := 2 * r;
      if k in w {
        var n :| 0 <= n < |w| && w[n] == k;
        WindowAt(o, r, n);
        QuotientBelow(n, side);
      }
      if -r <= k.0 - o.0 < r && -r <= k.1 - o.1 < r {
        var q, m := k.0 - o.0 + r, k.1 - o.1 + r;
        IndexBelow(q, m, side);
        var n := q * side + m;
        DivModOf(n, side, q, m);
        WindowAt(o, r, n);
        assert w[n] == k;
      }
    }
  }

  /** No key is enumerated twice. */
  lemma WindowDistinct(o: Key, r: int, a: int, b: int)
    requires 0 <= a < b < |Window(o, r)|
    ensures Window(o, r)[a] != Window(o, r)[b]
  {
    WindowLength(o, r);
    WindowAt(o, r, a);
    WindowAt(o, r, b);
    DivModDistinct(a, b, 2 * r);
  }

  /** Distinct numbers differ in their quotient or in their remainder. */
  lemma DivModDistinct(a: int, b: int, d: int)
    requires d > 0 && a != b
    ensures a / d != b / d || a % d != b % d
  {
    assert a == (a / d) * d + a % d;
    assert b == (b / d) * d + b % d;
  }

  /** The registry map m1 extends m0: no entry of m0 was removed or replaced. */
  ghost predicate Extends(m0: map<Key, Cell>, m1: map<Key, Cell>) {
    forall k :: k in m0 ==> k in m1 && m1[k] == m0[k]
  }

  /** Since the pass began with registry entry and cells pushed: the registry
      m extends entry, and out starts with pushed. */
  ghost predicate Kept(entry: map<Key, Cell>, m: map<Key, Cell>, pushed: seq<Cell>, out: seq<Cell>) {
    Extends(entry, m) && |pushed| <= |out| && out[..|pushed|] == pushed
  }

  /** Registering one more key and pushing one more cell keeps what Kept says. */
  lemma KeptStep(entry: map<Key, Cell>, m0: map<Key, Cell>, m1: map<Key, Cell>,
                 pushed: seq<Cell>, out: seq<Cell>, c: Cell)
    requires Kept(entry, m0, pushed, out) && Extends(m0, m1)
    ensures Kept(entry, m1, pushed, out + [c])
  {
    assert (out + [c])[..|pushed|] == out[..|pushed|];
  }

  /** cells[n] is the cell registered in m for keys[n], for every n. */
  ghost predicate Registered(m: map<Key, Cell>, cells: seq<Cell>, keys: seq<Key>) {
    |cells| == |keys| && forall n :: 0 <= n < |keys| ==> keys[n] in m && cells[n] == m[keys[n]]
  }

  /** The keys of m are those of start and those in keys. */
  ghost predicate Covers(m: map<Key, Cell>, start: map<Key, Cell>, keys: seq<Key>) {
    forall k :: k in m <==> k in start || k in keys
  }

  /** Registering one more key and pushing its canonical cell keeps the
      enumeration's bookkeeping. */
  lemma PushStep(start: map<Key, Cell>, m0: map<Key, Cell>, m1: map<Key, Cell>,
                 cells: seq<Cell>, keys: seq<Key>, c: Cell, key: Key)
    requires Registered(m0, cells, keys) && Covers(m0, start, keys) && Extends(start, m0)
    requires Extends(m0, m1) && (forall k :: k in m1 <==> k in m0 || k == key)
    requires key in m1 && c == m1[key]
    ensures Registered(m1, cells + [c], keys + [key])
    ensures Covers(m1, start, keys + [key]) && Extends(start, m1)
  {
  }

  class Board {
    /** Kept only for the position-to-index and bounds arithmetic, which this
        model takes as done (indices are passed in already floored). */
    const tileWidth: real
    const tileVisibilityRadius: int

    /** The registry of canonical cells, keyed by index pair. */
    var knownCells: map<Key, Cell>

    /** Every registered cell carries the indices of its key. */
    ghost predicate Valid()
      reads this
    {
      forall k :: k in knownCells ==> KeyOf(knownCells[k]) == k
    }

    constructor (tileWidth: real, tileVisibilityRadius: int)
      ensures Valid()
      ensures this.tileWidth == tileWidth && this.tileVisibilityRadius == tileVisibilityRadius
      ensures knownCells == map[]
    {
      this.tileWidth := tileWidth;
      this.tileVisibilityRadius := tileVisibilityRadius;
      knownCells := map[];
    }

    /** Interns a cell: the first cell registered for an index pair stays the
        canonical one, and every later request returns that stored object. */
    method GetCanonicalCell(cell: Cell) returns (r: Cell)
      requires Valid()
      modifies this
      ensures Valid()
      ensures KeyOf(cell) in knownCells && r == knownCells[KeyOf(cell)]
      ensures r.i == cell.i && r.j == cell.j
      ensures KeyOf(cell) in old(knownCells) ==>
        knownCells == old(knownCells) && r == old(knownCells[KeyOf(cell)])
      ensures KeyOf(cell) !in old(knownCells) ==>
        knownCells == old(knownCells)[KeyOf(cell) := cell] && r == cell
      ensures Extends(old(knownCells), knownCells)
      ensures forall k :: k in knownCells <==> k in old(knownCells) || k == KeyOf(cell)
    {
      var key := (cell.i, cell.j);
      if key !in knownCells {
        knownCells := knownCells[key := cell];
      }
      r := knownCells[key];
    }

    /** The canonical cell at grid indices (i, j), the floors of the point's
        coordinates divided by the tile width. */
    method GetCellForPoint(i: int, j: int) returns (r: Cell)
      requires Valid()
      modifies this
      ensures Valid()
      ensures (i, j) in knownCells && r == knownCells[(i, j)]
      ensures r.i == i && r.j == j
      ensures Extends(old(knownCells), knownCells)
      ensures knownCells.Keys == old(knownCells.Keys) + {(i, j)}
    {
      var cell := new Cell(i, j);
      r := GetCanonicalCell(cell);
    }

    /** Two requests for equal indices yield the identical canonical object,
        even when the requests pass different cell objects. */
    method CanonicalCellTwice(a: Cell, b: Cell) returns (ra: Cell, rb: Cell)
      requires Valid()
      requires a.i == b.i && a.j == b.j
      modifies this
      ensures Valid()
      ensures KeyOf(a) in knownCells && ra == rb && ra == knownCells[KeyOf(a)]
    {
      ra := GetCanonicalCell(a);
      rb := GetCanonicalCell(b);
    }

    /** The canonical cells of the window of radius tileVisibilityRadius around
        the cell at indices (pi, pj), row offset outer, column offset inner.
        The origin cell itself is registered too, even when the window is empty. */
    method GetCellsNearPoint(pi: int, pj: int) returns (cells: seq<Cell>)
      requires Valid()
      modifies this
      ensures Valid()
      ensures |cells| == |Window((pi, pj), tileVisibilityRadius)|
      ensures forall n :: 0 <= n < |cells| ==>
        Window((pi, pj), tileVisibilityRadius)[n] in knownCells &&
        cells[n] == knownCells[Window((pi, pj), tileVisibilityRadius)[n]]
      ensures Extends(old(knownCells), knownCells)
      ensures forall k :: k in knownCells <==>
        k in old(knownCells) || k == (pi, pj) || k in Window((pi, pj), tileVisibilityRadius)
    {
      var r := tileVisibilityRadius;
      var origin := GetCellForPoint(pi, pj);
      ghost var start := knownCells;
      var o := (origin.i, origin.j);
      cells := [];
      var di := -r;
      while di < r
        invariant Valid()
        invariant di == -r || -r <= di <= r
        invariant Registered(knownCells, cells, Rows(o, r, di))
        invariant Covers(knownCells, start, Rows(o, r, di)) && Extends(start, knownCells)
        decreases r - di
      {
        cells := PushRow(o, di, cells, start);
        di := di + 1;
      }
    }

    /** The inner loop of GetCellsNearPoint: pushes the canonical cells of row
        offset di, column offsets ascending from -r to r - 1. */
    method PushRow(o: Key, di: int, cells: seq<Cell>, ghost start: map<Key, Cell>)
      returns (out: seq<Cell>)
      requires Valid() && -tileVisibilityRadius <= di < tileVisibilityRadius
      requires Registered(knownCells, cells, Rows(o, tileVisibilityRadius, di))
      requires Covers(knownCells, start, Rows(o, tileVisibilityRadius, di))
      requires Extends(start, knownCells)
      modifies this
      ensures Valid()
      ensures Registered(knownCells, out, Rows(o, tileVisibilityRadius, di + 1))
      ensures Covers(knownCells, start, Rows(o, tileVisibilityRadius, di + 1))
      ensures Extends(start, knownCells) && Extends(old(knownCells), knownCells)
      ensures |cells| <= |out| && out[..|cells|] == cells
    {
      var r := tileVisibilityRadius;
      ghost var rows := Rows(o, r, di);
      out := cells;
      var dj := -r;
      while dj < r
        invariant Valid()
        invariant -r <= dj <= r
        invariant Registered(knownCells, out, rows + Row(o, r, di, dj))
        invariant Covers(knownCells, start, rows + Row(o, r, di, dj))
        invariant Extends(start, knownCells) && Kept(old(knownCells), knownCells, cells, out)
        decreases r - dj
      {
        ghost var keys := rows + Row(o, r, di, dj);
        var cell := new Cell(o.0 + di, o.1 + dj);
        ghost var before := knownCells;
        var canonical := GetCanonicalCell(cell);
        PushStep(start, before, knownCells, out, keys, canonical, (o.0 + di, o.1 + dj));
        KeptStep(old(knownCells), before, knownCells, cells, out, canonical);
        assert rows + Row(o, r, di, dj + 1) == keys + [(o.0 + di, o.1 + dj)];
        out := out + [canonical];
        dj := dj + 1;
      }
      assert Rows(o, r, di + 1) == rows + Row(o, r, di, r);
    }
  }

  /** isCellNextTo as written: the cells are one apart along the row index OR
      one apart along the column index, whatever the other index is. */
  function IsCellNextTo(a: Cell, b: Cell): (r: bool)
    ensures r <==> a.i - b.i in {-1, 1} || a.j - b.j in {-1, 1}
    ensures r ==> KeyOf(a) != KeyOf(b)
  {
    Abs(a.i - b.i) == 1 || Abs(a.j - b.j) == 1
  }

  function Abs(x: int): nat {
    if x < 0 then -x else x
  }

  /** The relation is symmetric. */
  lemma NextToSymmetric(a: Cell, b: Cell)
    ensures IsCellNextTo(a, b) == IsCellNextTo(b, a)
  {
  }

  /** As written, a cell one row away is "next to" another however many
      columns lie between them. */
  lemma NextToAcrossColumns(a: Cell, b: Cell)
    requires Abs(a.i - b.i) == 1
    ensures IsCellNextTo(a, b)
  {
  }

  /** Such cells are not adjacent once more than one column lies between them,
      so IsCellNextTo is strictly weaker than adjacency. */
  lemma NotAdjacentAcrossColumns(a: Cell, b: Cell)
    requires Abs(a.i - b.i) == 1 && Abs(a.j - b.j) > 1
    ensures !IsAdjacent(a, b)
  {
  }

  /** The eight cells around the cell at k. */
  function Neighbours(k: Key): set<Key> {
    {(k.0 - 1, k.1 - 1), (k.0 - 1, k.1), (k.0 - 1, k.1 + 1),
     (k.0, k.1 - 1), (k.0, k.1 + 1),
     (k.0 + 1, k.1 - 1), (k.0 + 1, k.1), (k.0 + 1, k.1 + 1)}
  }

  /** Adjacency on the grid: distinct cells at most one apart along both
      indices. Every adjacent pair is also "next to" each other as written. */
  function IsAdjacent(a: Cell, b: Cell): (r: bool)
    ensures r <==> KeyOf(b) in Neighbours(KeyOf(a))
    ensures r ==> IsCellNextTo(a, b)
  {
    KeyOf(a) != KeyOf(b) && Abs(a.i - b.i) <= 1 && Abs(a.j - b.j) <= 1
  }
}
