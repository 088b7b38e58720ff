/**
 * The deterministic hexagonal lattice behind the hero background: nodes laid
 * out row-major over `rows x cols` cells in staggered columns, a (col,row) to
 * index lookup kept beside them, and for every node the list of its lattice
 * neighbours with a strictly larger index, so that every undirected edge is
 * listed exactly once (by its lower-indexed end).
 */
module HexGrid {

  /** Spacing constant of the lattice, in CSS pixels. */
  const HexRadius: int := 70
  /** Horizontal distance between adjacent columns: HexRadius * 1.5. */
  const ColumnSpacing: int := 105
  /** Left edge of column 0: -2 * HexRadius. */
  const OffsetX: int := -140
  /** Vertical distance between adjacent rows: the IEEE double nearest to 70 * sqrt(3), written out exactly. */
  const HexHeight: real := 121.243556529821404410540708340704441070556640625
  /** Extra columns and rows added beyond the ones that cover the viewport. */
  const Margin: nat := 4

  /** A lattice position; the source keys its lookup by the string "col,row", which this pair encodes one-to-one. */
  datatype Cell = Cell(col: int, row: int)

  /** A lattice node: its position, its cell and the indices of its higher-indexed neighbours. */
  datatype HexNode = HexNode(x: real, y: real, col: int, row: int, neighbors: seq<nat>)

  // ---------------------------------------------------------------------------
  // Grid dimensions

  /** The smallest natural number k with k >= r. */
  function CeilNat(r: real): (k: nat)
    requires r >= 0.0
    ensures r <= k as real < r + 1.0
  {
    var f := (-r).Floor;
    assert f as real <= -r < f as real + 1.0;
    -f
  }

  /** Number of columns: ceil(width / ColumnSpacing) + Margin. */
  function ColumnCount(width: nat): (cols: nat)
    ensures cols >= Margin
    ensures width <= (cols - Margin) * ColumnSpacing < width + ColumnSpacing
  {
    (width + ColumnSpacing - 1) / ColumnSpacing + Margin
  }

  /** Number of rows: ceil(height / HexHeight) + Margin. */
  function RowCount(height: nat): (rows: nat)
    ensures rows >= Margin
    ensures height as real <= (rows - Margin) as real * HexHeight < height as real + HexHeight
  {
    var k := CeilNat(height as real / HexHeight);
    assert height as real / HexHeight <= k as real < height as real / HexHeight + 1.0;
    k + Margin
  }

  // ---------------------------------------------------------------------------
  // Cells, indices and coordinates

  predicate InGrid(c: Cell, rows: nat, cols: nat) {
    0 <= c.col < cols && 0 <= c.row < rows
  }

  /** Row-major position of a cell: the order in which the builder visits it. */
  function CellIndex(c: Cell, cols: nat): int {
    c.row * cols + c.col
  }

  /** The cell at a row-major position. */
  function CellAt(i: nat, cols: nat): Cell
    requires cols > 0
  {
    Cell(i % cols, i / cols)
  }

  lemma CellIndexBounds(c: Cell, rows: nat, cols: nat)
    requires InGrid(c, rows, cols)
    ensures 0 <= CellIndex(c, cols) < rows * cols
  {
    assert c.row * cols <= (rows - 1) * cols;
  }

  lemma {:induction false} MulAtLeast(d: int, n: nat)
    requires d >= 1
    ensures d * n >= n
    decreases d
  {
    if d > 1 {
      MulAtLeast(d - 1, n);
      assert d * n == (d - 1) * n + n;
    }
  }

  /** Euclidean division has exactly one quotient and remainder. */
  lemma DivModUnique(i: int, n: nat, q: int, r: int)
    requires n > 0 && 0 <= r < n && i == q * n + r
    ensures i / n == q && i % n == r
  {
    var q', r' := i / n, i % n;
    assert (q' - q) * n == r - r';
    if q' > q {
      MulAtLeast(q' - q, n);
    } else if q' < q {
      MulAtLeast(q - q', n);
    }
  }

  /** CellAt inverts CellIndex on the grid: the row-major numbering is a bijection. */
  lemma CellIndexRoundTrip(c: Cell, rows: nat, cols: nat)
    requires InGrid(c, rows, cols)
    ensures CellIndex(c, cols) >= 0 && CellAt(CellIndex(c, cols), cols) == c
  {
    CellIndexBounds(c, rows, cols);
    DivModUnique(CellIndex(c, cols), cols, c.row, c.col);
  }

  lemma CellAtRoundTrip(i: nat, rows: nat, cols: nat)
    requires i < rows * cols
    ensures cols > 0 && InGrid(CellAt(i, cols), rows, cols) && CellIndex(CellAt(i, cols), cols) == i
  {
    var q := i / cols;
    if q >= rows {
      assert q * cols >= rows * cols;
    }
  }

  lemma CellIndexInjective(a: Cell, b: Cell, rows: nat, cols: nat)
    requires InGrid(a, rows, cols) && InGrid(b, rows, cols)
    requires CellIndex(a, cols) == CellIndex(b, cols)
    ensures a == b
  {
    CellIndexRoundTrip(a, rows, cols);
    CellIndexRoundTrip(b, rows, cols);
  }

  function NodeX(col: int): real {
    (OffsetX + col * ColumnSpacing) as real
  }

  /** Odd columns are shifted down by half a row. */
  function NodeY(col: int, row: int): real {
    -HexHeight + row as real * HexHeight + (col % 2) as real * (HexHeight / 2.0)
  }

  function NodeFor(c: Cell, neighbors: seq<nat>): HexNode {
    HexNode(NodeX(c.col), NodeY(c.col, c.row), c.col, c.row, neighbors)
  }

  // ---------------------------------------------------------------------------
  // Adjacency

  type Offset = (int, int)

  const EvenOffsets: seq<Offset> := [(-1, -1), (-1, 0), (0, -1), (0, 1), (1, -1), (1, 0)]
  const OddOffsets: seq<Offset> := [(-1, 0), (-1, 1), (0, -1), (0, 1), (1, 0), (1, 1)]

  /** The six (dcol, drow) offsets to the neighbours of a cell in column `col`. */
  function Offsets(col: int): seq<Offset> {
    if col % 2 == 0 then EvenOffsets else OddOffsets
  }

  function Shift(c: Cell, d: Offset): Cell {
    Cell(c.col + d.0, c.row + d.1)
  }

  /** `b` is one lattice step from `a` according to `a`'s column parity. */
  predicate Adjacent(a: Cell, b: Cell) {
    (b.col - a.col, b.row - a.row) in Offsets(a.col)
  }

  /** The neighbour index one offset contributes: kept only if the cell exists and has a larger index. */
  function Kept(c: Cell, d: Offset, rows: nat, cols: nat): seq<nat> {
    var n := Shift(c, d);
    if InGrid(n, rows, cols) && CellIndex(n, cols) > CellIndex(c, cols) then [CellIndex(n, cols) as nat] else []
  }

  function RetainedFrom(c: Cell, ds: seq<Offset>, rows: nat, cols: nat): seq<nat>
    decreases |ds|
  {
    if ds == [] then [] else Kept(c, ds[0], rows, cols) + RetainedFrom(c, ds[1..], rows, cols)
  }

  /** The neighbour list the builder stores for the node in cell `c`. */
  function Retained(c: Cell, rows: nat, cols: nat): seq<nat> {
    RetainedFrom(c, Offsets(c.col), rows, cols)
  }

  lemma {:induction false} RetainedFromMember(c: Cell, ds: seq<Offset>, rows: nat, cols: nat, j: int)
    ensures j in RetainedFrom(c, ds, rows, cols) <==> exists d :: d in ds && j in Kept(c, d, rows, cols)
    decreases |ds|
  {
    if ds != [] {
      RetainedFromMember(c, ds[1..], rows, cols, j);
      assert forall d :: d in ds <==> d == ds[0] || d in ds[1..];
    }
  }

  lemma {:induction false} RetainedFromLength(c: Cell, ds: seq<Offset>, rows: nat, cols: nat)
    ensures |RetainedFrom(c, ds, rows, cols)| <= |ds|
    decreases |ds|
  {
    if ds != [] {
      RetainedFromLength(c, ds[1..], rows, cols);
    }
  }

  /** No element occurs twice. */
  ghost predicate Distinct<T>(s: seq<T>) {
    forall p, q :: 0 <= p < q < |s| ==> s[p] != s[q]
  }

  lemma {:induction false} RetainedFromDistinct(c: Cell, ds: seq<Offset>, rows: nat, cols: nat)
    requires forall p, q :: 0 <= p < q < |ds| ==> ds[p] != ds[q]
    ensures Distinct(RetainedFrom(c, ds, rows, cols))
    decreases |ds|
  {
    if ds != [] {
      var rest := RetainedFrom(c, ds[1..], rows, cols);
      RetainedFromDistinct(c, ds[1..], rows, cols);
      var head := Kept(c, ds[0], rows, cols);
      if head != [] {
        var n := Shift(c, ds[0]);
        if CellIndex(n, cols) in rest {
          RetainedFromMember(c, ds[1..], rows, cols, CellIndex(n, cols));
          var d :| d in ds[1..] && CellIndex(n, cols) in Kept(c, d, rows, cols);
          CellIndexInjective(n, Shift(c, d), rows, cols);
          assert false;
        }
        assert CellIndex(n, cols) !in rest;
        var r := head + rest;
        assert RetainedFrom(c, ds, rows, cols) == r;
        assert r[0] == CellIndex(n, cols);
        forall p, q | 0 <= p < q < |r| ensures r[p] != r[q] {
          if p == 0 {
            assert r[q] == rest[q - 1];
            assert rest[q - 1] in rest;
            assert r[p] !in rest;
          } else {
            assert r[p] == rest[p - 1] && r[q] == rest[q - 1];
          }
        }
      }
    }
  }

  lemma RetainedFromStep(c: Cell, ds: seq<Offset>, k: nat, rows: nat, cols: nat)
    requires k < |ds|
    ensures RetainedFrom(c, ds[k..], rows, cols) == Kept(c, ds[k], rows, cols) + RetainedFrom(c, ds[k + 1..], rows, cols)
  {
    assert ds[k..][0] == ds[k] && ds[k..][1..] == ds[k + 1..];
  }

  lemma AppendAssociative<T>(a: seq<T>, b: seq<T>, c: seq<T>)
    ensures (a + b) + c == a + (b + c)
  {
  }

  /** What the builder computes with the lookup is what Kept states with index arithmetic. */
  lemma KeptByLookup(c: Cell, d: Offset, nodeMap: map<Cell, nat>, rows: nat, cols: nat)
    requires IndexesCells(nodeMap, rows, cols)
    ensures var n := Shift(c, d);
      Kept(c, d, rows, cols) == if n in nodeMap && nodeMap[n] > CellIndex(c, cols) then [nodeMap[n]] else []
  {
  }

  /** Every listed index is a valid index above the node's own whose cell is one lattice step away. */
  lemma RetainedOnlyAdjacent(c: Cell, rows: nat, cols: nat, j: int)
    requires InGrid(c, rows, cols)
    requires j in Retained(c, rows, cols)
    ensures CellIndex(c, cols) < j < rows * cols && Adjacent(c, CellAt(j, cols))
  {
    RetainedFromMember(c, Offsets(c.col), rows, cols, j);
    var d :| d in Offsets(c.col) && j in Kept(c, d, rows, cols);
    var n := Shift(c, d);
    CellIndexBounds(n, rows, cols);
    CellIndexRoundTrip(n, rows, cols);
  }

  /** Every adjacent grid cell with a larger index is listed. */
  lemma RetainedAllAdjacent(c: Cell, rows: nat, cols: nat, j: int)
    requires InGrid(c, rows, cols)
    requires CellIndex(c, cols) < j < rows * cols && Adjacent(c, CellAt(j, cols))
    ensures j in Retained(c, rows, cols)
  {
    CellAtRoundTrip(j, rows, cols);
    var n := CellAt(j, cols);
    var d := (n.col - c.col, n.row - c.row);
    assert Shift(c, d) == n;
    assert j in Kept(c, d, rows, cols);
    RetainedFromMember(c, Offsets(c.col), rows, cols, j);
  }

  /**
   * The stored list is exactly the set of adjacent cells with a larger index:
   * an index is listed if and only if it is a valid index above the node's
   * own and its cell is one lattice step away.
   */
  lemma RetainedCharacterization(c: Cell, rows: nat, cols: nat, j: nat)
    requires InGrid(c, rows, cols)
    ensures j in Retained(c, rows, cols) <==>
      CellIndex(c, cols) < j < rows * cols && Adjacent(c, CellAt(j, cols))
  {
    if j in Retained(c, rows, cols) {
      RetainedOnlyAdjacent(c, rows, cols, j);
    } else if CellIndex(c, cols) < j < rows * cols && Adjacent(c, CellAt(j, cols)) {
      RetainedAllAdjacent(c, rows, cols, j);
    }
  }

  /** A stored list has at most six entries, none repeated. */
  lemma RetainedShape(c: Cell, rows: nat, cols: nat)
    ensures |Retained(c, rows, cols)| <= 6
    ensures Distinct(Retained(c, rows, cols))
  {
    RetainedFromLength(c, Offsets(c.col), rows, cols);
    RetainedFromDistinct(c, Offsets(c.col), rows, cols);
  }

  /** Adjacent cells differ by at most one column and at most one row, and are distinct. */
  lemma AdjacentIsClose(a: Cell, b: Cell)
    requires Adjacent(a, b)
    ensures -1 <= b.col - a.col <= 1 && -1 <= b.row - a.row <= 1 && a != b
  {
  }

  /**
   * The even and odd offset tables are mutual inverses: one lattice step from
   * `a` to `b` is one lattice step from `b` back to `a`.
   */
  lemma AdjacentSymmetric(a: Cell, b: Cell)
    ensures Adjacent(a, b) <==> Adjacent(b, a)
  {
    if a.col % 2 == 0 {
      assert (a.col - 1) % 2 == 1 && (a.col + 1) % 2 == 1;
    } else {
      assert (a.col - 1) % 2 == 0 && (a.col + 1) % 2 == 0;
    }
  }

  /**
   * Every undirected edge between two grid cells is stored exactly once, in
   * the list of its lower-indexed end.
   */
  lemma EdgeStoredOnce(a: Cell, b: Cell, rows: nat, cols: nat)
    requires InGrid(a, rows, cols) && InGrid(b, rows, cols) && Adjacent(a, b)
    ensures CellIndex(b, cols) in Retained(a, rows, cols) <==> CellIndex(a, cols) < CellIndex(b, cols)
    ensures CellIndex(a, cols) in Retained(b, rows, cols) <==> CellIndex(b, cols) < CellIndex(a, cols)
    ensures (CellIndex(b, cols) in Retained(a, rows, cols)) != (CellIndex(a, cols) in Retained(b, rows, cols))
  {
    AdjacentSymmetric(a, b);
    AdjacentIsClose(a, b);
    CellIndexBounds(a, rows, cols);
    CellIndexBounds(b, rows, cols);
    CellIndexRoundTrip(a, rows, cols);
    CellIndexRoundTrip(b, rows, cols);
    RetainedCharacterization(a, rows, cols, CellIndex(b, cols));
    RetainedCharacterization(b, rows, cols, CellIndex(a, cols));
    if CellIndex(a, cols) == CellIndex(b, cols) {
      CellIndexInjective(a, b, rows, cols);
    }
  }

  // ---------------------------------------------------------------------------
  // Construction

  /** `c` is a column of the grid and comes before (row, col) in row-major order. */
  ghost predicate Before(c: Cell, row: int, col: int, cols: nat) {
    0 <= c.col < cols && 0 <= c.row && (c.row < row || (c.row == row && c.col < col))
  }

  /** The lookup holds exactly the grid cells, each mapped to its row-major index. */
  ghost predicate IndexesCells(nodeMap: map<Cell, nat>, rows: nat, cols: nat) {
    && (forall c :: c in nodeMap <==> InGrid(c, rows, cols))
    && (forall c :: c in nodeMap ==> nodeMap[c] == CellIndex(c, cols))
  }

  /**
   * Every grid cell has its node at its row-major index; the nodes below
   * index `linked` carry their neighbour lists and the others none yet.
   */
  ghost predicate Placed(nodes: seq<HexNode>, rows: nat, cols: nat, linked: int) {
    forall c :: InGrid(c, rows, cols) ==>
      && 0 <= CellIndex(c, cols) < |nodes|
      && nodes[CellIndex(c, cols)] == NodeFor(c, if CellIndex(c, cols) < linked then Retained(c, rows, cols) else [])
  }

  /** A fully built grid of `rows * cols` nodes with its lookup. */
  ghost predicate IsGrid(nodes: seq<HexNode>, nodeMap: map<Cell, nat>, rows: nat, cols: nat) {
    && |nodes| == rows * cols
    && Placed(nodes, rows, cols, rows * cols)
    && IndexesCells(nodeMap, rows, cols)
  }

  /** The nested row/column loops that create the nodes and the lookup. */
  method LayOutNodes(rows: nat, cols: nat) returns (nodes: seq<HexNode>, nodeMap: map<Cell, nat>)
    ensures |nodes| == rows * cols
    ensures Placed(nodes, rows, cols, 0)
    ensures IndexesCells(nodeMap, rows, cols)
  {
    nodes, nodeMap := [], map[];
    var row := 0;
    while row < rows
      invariant 0 <= row <= rows
      invariant |nodes| == row * cols
      invariant forall c :: Before(c, row, 0, cols) ==>
        0 <= CellIndex(c, cols) < |nodes| && nodes[CellIndex(c, cols)] == NodeFor(c, [])
      invariant forall c :: c in nodeMap <==> Before(c, row, 0, cols)
      invariant forall c :: c in nodeMap ==> nodeMap[c] == CellIndex(c, cols)
    {
      var col := 0;
      while col < cols
        invariant 0 <= col <= cols
        invariant |nodes| == row * cols + col
        invariant forall c :: Before(c, row, col, cols) ==>
          0 <= CellIndex(c, cols) < |nodes| && nodes[CellIndex(c, cols)] == NodeFor(c, [])
        invariant forall c :: c in nodeMap <==> Before(c, row, col, cols)
        invariant forall c :: c in nodeMap ==> nodeMap[c] == CellIndex(c, cols)
      {
        var here := Cell(col, row);
        nodeMap := nodeMap[here := |nodes|];
        nodes := nodes + [NodeFor(here, [])];
        forall c | Before(c, row, col + 1, cols)
          ensures 0 <= CellIndex(c, cols) < |nodes| && nodes[CellIndex(c, cols)] == NodeFor(c, [])
        {
          if c != here {
            assert Before(c, row, col, cols);
          }
        }
        col := col + 1;
      }
      assert (row + 1) * cols == row * cols + cols;
      forall c | Before(c, row + 1, 0, cols)
        ensures 0 <= CellIndex(c, cols) < |nodes| && nodes[CellIndex(c, cols)] == NodeFor(c, [])
      {
        assert Before(c, row, cols, cols);
      }
      row := row + 1;
    }
    forall c | InGrid(c, rows, cols)
      ensures 0 <= CellIndex(c, cols) < |nodes| && nodes[CellIndex(c, cols)] == NodeFor(c, [])
    {
      assert Before(c, rows, 0, cols);
    }
  }

  /**
   * The per-node step of the neighbour pass: for each of the six parity
   * offsets, the looked-up index is appended to the node's list in place when
   * the cell exists and its index is larger than the node's own.
   */
  method LinkNode(nodes: seq<HexNode>, nodeMap: map<Cell, nat>, idx: nat, ghost c: Cell, ghost rows: nat, ghost cols: nat)
    returns (linked: seq<HexNode>)
    requires idx < |nodes| && InGrid(c, rows, cols) && CellIndex(c, cols) == idx
    requires nodes[idx] == NodeFor(c, [])
    requires IndexesCells(nodeMap, rows, cols)
    ensures |linked| == |nodes|
    ensures linked[idx] == NodeFor(c, Retained(c, rows, cols))
    ensures forall j :: 0 <= j < |linked| && j != idx ==> linked[j] == nodes[j]
  {
    var node := nodes[idx];
    var ds := Offsets(node.col);
    var k := 0;
    while k < |ds|
      invariant 0 <= k <= |ds|
      invariant node == NodeFor(c, node.neighbors)
      invariant node.neighbors + RetainedFrom(c, ds[k..], rows, cols) == Retained(c, rows, cols)
    {
      RetainedFromStep(c, ds, k, rows, cols);
      KeptByLookup(c, ds[k], nodeMap, rows, cols);
      ghost var prev := node.neighbors;
      var key := Cell(node.col + ds[k].0, node.row + ds[k].1);
      if key in nodeMap && nodeMap[key] > idx {
        node := node.(neighbors := node.neighbors + [nodeMap[key]]);
      }
      assert node.neighbors == prev + Kept(c, ds[k], rows, cols);
      AppendAssociative(prev, Kept(c, ds[k], rows, cols), RetainedFrom(c, ds[k + 1..], rows, cols));
      k := k + 1;
    }
    linked := nodes[idx := node];
  }

  /** The pass over all nodes, in index order, that fills their neighbour lists. */
  method ConnectNeighbors(nodes: seq<HexNode>, nodeMap: map<Cell, nat>, ghost rows: nat, ghost cols: nat)
    returns (linked: seq<HexNode>)
    requires |nodes| == rows * cols
    requires Placed(nodes, rows, cols, 0)
    requires IndexesCells(nodeMap, rows, cols)
    ensures IsGrid(linked, nodeMap, rows, cols)
  {
    linked := nodes;
    var idx := 0;
    while idx < |linked|
      invariant |linked| == rows * cols
      invariant 0 <= idx <= |linked|
      invariant Placed(linked, rows, cols, idx)
    {
      CellAtRoundTrip(idx, rows, cols);
      ghost var c := CellAt(idx, cols);
      ghost var before := linked;
      assert linked[idx] == NodeFor(c, []);
      linked := LinkNode(linked, nodeMap, idx, c, rows, cols);
      forall c' | InGrid(c', rows, cols)
        ensures 0 <= CellIndex(c', cols) < |linked|
        ensures linked[CellIndex(c', cols)] ==
          NodeFor(c', if CellIndex(c', cols) < idx + 1 then Retained(c', rows, cols) else [])
      {
        if CellIndex(c', cols) == idx {
          assert before[idx] == NodeFor(c', []);
          assert c' == c;
        }
      }
      idx := idx + 1;
    }
  }

  /** Grid construction for a viewport: dimensions, node layout, then neighbour lists. */
  method BuildGrid(width: nat, height: nat) returns (nodes: seq<HexNode>, nodeMap: map<Cell, nat>)
    ensures IsGrid(nodes, nodeMap, RowCount(height), ColumnCount(width))
  {
    var cols := ColumnCount(width);
    var rows := RowCount(height);
    nodes, nodeMap := LayOutNodes(rows, cols);
    nodes := ConnectNeighbors(nodes, nodeMap, rows, cols);
  }

  // ---------------------------------------------------------------------------
  // Properties of a built grid

  /**
   * The node at index i sits in column i % cols and row i / cols, at that
   * cell's coordinates, and the lookup maps its cell back to i.
   */
  lemma GridNodeAt(nodes: seq<HexNode>, nodeMap: map<Cell, nat>, rows: nat, cols: nat, i: nat)
    requires IsGrid(nodes, nodeMap, rows, cols)
    requires i < |nodes|
    ensures cols > 0
    ensures nodes[i].col == i % cols && nodes[i].row == i / cols
    ensures nodes[i].x == NodeX(nodes[i].col) && nodes[i].y == NodeY(nodes[i].col, nodes[i].row)
    ensures Cell(nodes[i].col, nodes[i].row) in nodeMap && nodeMap[Cell(nodes[i].col, nodes[i].row)] == i
    ensures nodes[i].neighbors == Retained(CellAt(i, cols), rows, cols)
  {
    CellAtRoundTrip(i, rows, cols);
  }

  /**
   * Every stored neighbour is a valid index strictly above the node's own, one
   * lattice step away, at most one column and one row from it; a list has at
   * most six entries and no repeats.
   */
  lemma GridNeighbors(nodes: seq<HexNode>, nodeMap: map<Cell, nat>, rows: nat, cols: nat, i: nat)
    requires IsGrid(nodes, nodeMap, rows, cols)
    requires i < |nodes|
    ensures |nodes[i].neighbors| <= 6
    ensures Distinct(nodes[i].neighbors)
    ensures forall k :: 0 <= k < |nodes[i].neighbors| ==>
      var j := nodes[i].neighbors[k];
      && i < j < |nodes|
      && Adjacent(Cell(nodes[i].col, nodes[i].row), Cell(nodes[j].col, nodes[j].row))
      && -1 <= nodes[j].col - nodes[i].col <= 1
      && -1 <= nodes[j].row - nodes[i].row <= 1
  {
    GridNodeAt(nodes, nodeMap, rows, cols, i);
    var c := CellAt(i, cols);
    CellAtRoundTrip(i, rows, cols);
    RetainedShape(c, rows, cols);
    forall k | 0 <= k < |nodes[i].neighbors|
      ensures var j := nodes[i].neighbors[k];
        && i < j < |nodes|
        && Adjacent(Cell(nodes[i].col, nodes[i].row), Cell(nodes[j].col, nodes[j].row))
        && -1 <= nodes[j].col - nodes[i].col <= 1
        && -1 <= nodes[j].row - nodes[i].row <= 1
    {
      var j := nodes[i].neighbors[k];
      RetainedOnlyAdjacent(c, rows, cols, j);
      GridNodeAt(nodes, nodeMap, rows, cols, j);
      AdjacentIsClose(c, CellAt(j, cols));
    }
  }

  /**
   * For two grid nodes one lattice step apart, exactly one lists the other:
   * the lower-indexed one. Walking every node's list therefore visits each
   * undirected edge once.
   */
  lemma GridEdgeOnce(nodes: seq<HexNode>, nodeMap: map<Cell, nat>, rows: nat, cols: nat, i: nat, j: nat)
    requires IsGrid(nodes, nodeMap, rows, cols)
    requires i < |nodes| && j < |nodes|
    requires Adjacent(Cell(nodes[i].col, nodes[i].row), Cell(nodes[j].col, nodes[j].row))
    ensures i != j
    ensures j in nodes[i].neighbors <==> i < j
    ensures i in nodes[j].neighbors <==> j < i
  {
    GridNodeAt(nodes, nodeMap, rows, cols, i);
    GridNodeAt(nodes, nodeMap, rows, cols, j);
    CellAtRoundTrip(i, rows, cols);
    CellAtRoundTrip(j, rows, cols);
    EdgeStoredOnce(CellAt(i, cols), CellAt(j, cols), rows, cols);
  }
}
