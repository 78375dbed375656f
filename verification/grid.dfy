/** The taxi world's map as an undirected grid graph (the `EnvGraph` class).

    The map is a list of text rows framed by a border. Cell (r, c) sits at
    character 2c+1 of text row r+1. The south test reads the character
    straight below it, at position 2c+1 of text row r+2: that is the lower
    cell (r+1, c)'s own glyph, or the bottom frame for the last row, so a
    south edge is missing only where that glyph is `-`. The east test reads
    the character to its right (position 2c+2 of text row r+1), which
    separates it from its eastern neighbour. Cells are numbered row by row:
    node = row * cols + col. */
module Grid {
  import opened Results

  /** A grid coordinate `[row, column]`. */
  datatype Cell = Cell(row: int, col: int)

  /** Why building the graph raises.
      `IndexOutOfRange`: the scan read a glyph beyond the end of its text row,
      or the map has no first row at all (`IndexError`).
      `NegativeNodeCount`: a one-row map with columns asks networkx for an
      empty graph with a negative number of nodes (`NetworkXError`).
      `GraphGrewDuringScan`: an edge reached past the last node, so `add_edge`
      added a node to the node table the scan is iterating over; the next
      step of the iteration raises `RuntimeError`. */
  datatype MapError = IndexOutOfRange | NegativeNodeCount | GraphGrewDuringScan

  /** The graph built from a map. `south[i]` records that the scan added the
      edge i -- i+cols for node i, `east[i]` that it added i -- i+1. */
  datatype EnvGraph = EnvGraph(rows: int, cols: nat, south: seq<bool>, east: seq<bool>)

  /** Number of nodes the scan visits: `rows * cols`, or none when that is not positive. */
  function NodeCount(rows: int, cols: nat): nat
  {
    if rows > 0 && cols > 0 then rows * cols else 0
  }

  /** One edge flag of each kind for every scanned node. */
  predicate Valid(g: EnvGraph)
  {
    |g.south| == NodeCount(g.rows, g.cols) && |g.east| == NodeCount(g.rows, g.cols)
  }

  // ---------------------------------------------------------------------------
  // Coordinates and node indices
  // ---------------------------------------------------------------------------

  /** `cors_to_node`: defined for every coordinate, in range or not. A cell
      inside the grid names one of the scanned nodes. */
  function CorsToNode(g: EnvGraph, c: Cell): (n: int)
    ensures 0 <= c.row < g.rows && 0 <= c.col < g.cols ==> 0 <= n < NodeCount(g.rows, g.cols)
  {
    InGridCellIsScanned(g.rows, g.cols, c.row, c.col);
    c.row * g.cols + c.col
  }

  /** The row-major number of an in-grid cell is below `rows * cols`. */
  lemma InGridCellIsScanned(rows: int, cols: nat, r: int, c: int)
    ensures 0 <= r < rows && 0 <= c < cols ==> 0 <= r * cols + c < NodeCount(rows, cols)
  {
    if 0 <= r < rows && 0 <= c < cols {
      MultiplyMonotone(0, r, cols);
      MultiplyMonotone(r, rows - 1, cols);
      assert (rows - 1) * cols == rows * cols - cols;
    }
  }

  /** `node_to_cors`. Python's `//` and `%` floor; for the positive divisor used
      here that is the same as Dafny's Euclidean `/` and `%`, so this is exact
      for negative nodes too. A zero column count makes Python divide by zero. */
  function NodeToCors(g: EnvGraph, n: int): (c: Cell)
    requires g.cols > 0
    ensures CorsToNode(g, c) == n
    ensures 0 <= c.col < g.cols
  {
    Cell(n / g.cols, n % g.cols)
  }

  /** A positive multiple of d is at least d. */
  lemma MultipleAtLeast(k: int, d: int)
    requires k >= 1 && d > 0
    ensures k * d >= d
  {
    assert k * d == (k - 1) * d + d;
    assert (k - 1) * d >= 0;
  }

  /** Quotient and remainder are determined by any decomposition with a
      remainder in range. */
  lemma DivModUnique(n: int, d: int, q: int, m: int)
    requires d > 0 && 0 <= m < d && n == q * d + m
    ensures n / d == q && n % d == m
  {
    var q0, m0 := n / d, n % d;
    assert q0 * d + m0 == q * d + m;
    assert (q0 - q) * d == m - m0 by {
      assert (q0 - q) * d == q0 * d - q * d;
    }
    if q0 - q >= 1 {
      MultipleAtLeast(q0 - q, d);
    } else if q - q0 >= 1 {
      assert (q - q0) * d == -((q0 - q) * d);
      MultipleAtLeast(q - q0, d);
    }
  }

  /** The coordinate/node correspondence round-trips exactly on the cells whose
      column lies inside the grid, and only there. */
  lemma CoordinateRoundTrip(g: EnvGraph, c: Cell)
    requires g.cols > 0
    ensures NodeToCors(g, CorsToNode(g, c)) == c <==> 0 <= c.col < g.cols
  {
    if 0 <= c.col < g.cols {
      DivModUnique(CorsToNode(g, c), g.cols, c.row, c.col);
    }
  }

  /** Two in-grid coordinates name the same node only if they are equal. */
  lemma CorsToNodeInjective(g: EnvGraph, a: Cell, b: Cell)
    requires 0 <= a.col < g.cols && 0 <= b.col < g.cols
    requires CorsToNode(g, a) == CorsToNode(g, b)
    ensures a == b
  {
    CoordinateRoundTrip(g, a);
    CoordinateRoundTrip(g, b);
  }

  /** Multiplying by a non-negative factor keeps the order. */
  lemma MultiplyMonotone(a: int, b: int, k: int)
    requires a <= b && k >= 0
    ensures a * k <= b * k
  {
    assert b * k - a * k == (b - a) * k;
  }

  /** A node is scanned exactly when its row lies inside the grid. */
  lemma ScannedNodeRows(g: EnvGraph, n: int)
    requires g.cols > 0
    ensures 0 <= n < NodeCount(g.rows, g.cols) <==> 0 <= NodeToCors(g, n).row < g.rows
  {
    var c := NodeToCors(g, n);
    assert n == c.row * g.cols + c.col;
    if c.row < 0 {
      MultiplyMonotone(c.row, -1, g.cols);
    } else if c.row < g.rows {
      MultiplyMonotone(0, c.row, g.cols);
      MultiplyMonotone(c.row, g.rows - 1, g.cols);
      assert (g.rows - 1) * g.cols == g.rows * g.cols - g.cols;
    } else if g.rows > 0 {
      MultiplyMonotone(g.rows, c.row, g.cols);
    }
  }

  // ---------------------------------------------------------------------------
  // Building the graph from the map
  // ---------------------------------------------------------------------------

  /** Both separator glyphs the scan reads for cell (r, c) lie inside their text rows. */
  predicate CellReadable(desc: seq<string>, r: int, c: int)
  {
    0 <= r && 0 <= c && r + 2 < |desc| && 2 * c + 1 < |desc[r + 2]| && 2 * c + 2 < |desc[r + 1]|
  }

  /** Every cell of a rows-by-cols grid is readable. */
  predicate MapReadable(desc: seq<string>, rows: int, cols: nat)
  {
    forall r, c :: 0 <= r < rows && 0 <= c < cols ==> CellReadable(desc, r, c)
  }

  /** The cell the scan visits as node i is readable. */
  predicate NodeReadable(desc: seq<string>, cols: nat, i: int)
    requires cols > 0
  {
    CellReadable(desc, i / cols, i % cols)
  }

  function SouthGlyphOpen(desc: seq<string>, cols: nat, i: int): bool
    requires cols > 0 && NodeReadable(desc, cols, i)
  {
    desc[i / cols + 2][2 * (i % cols) + 1] != '-'
  }

  function EastGlyphOpen(desc: seq<string>, cols: nat, i: int): bool
    requires cols > 0 && NodeReadable(desc, cols, i)
  {
    desc[i / cols + 1][2 * (i % cols) + 2] == ':'
  }

  /** Scanning cell by cell and scanning node by node read the same glyphs. */
  lemma ReadableByNodes(desc: seq<string>, rows: int, cols: nat)
    requires rows > 0 && cols > 0
    ensures MapReadable(desc, rows, cols) <==>
            forall i :: 0 <= i < rows * cols ==> NodeReadable(desc, cols, i)
  {
    var g := EnvGraph(rows, cols, [], []);
    if MapReadable(desc, rows, cols) {
      forall i | 0 <= i < rows * cols
        ensures NodeReadable(desc, cols, i)
      {
        ScannedNodeRows(g, i);
        var c := NodeToCors(g, i);
        assert CellReadable(desc, c.row, c.col);
      }
    }
    if forall i :: 0 <= i < rows * cols ==> NodeReadable(desc, cols, i) {
      forall r, c | 0 <= r < rows && 0 <= c < cols
        ensures CellReadable(desc, r, c)
      {
        var i := CorsToNode(g, Cell(r, c));
        CoordinateRoundTrip(g, Cell(r, c));
        ScannedNodeRows(g, i);
        assert NodeReadable(desc, cols, i);
      }
    }
  }

  /** Visiting node i adds an edge to a node past the `n` scanned ones: an open
      glyph under a cell of the last row, or a `:` right of the last cell. */
  predicate LeavesGrid(desc: seq<string>, cols: nat, n: int, i: int)
    requires cols > 0 && NodeReadable(desc, cols, i)
  {
    (SouthGlyphOpen(desc, cols, i) && i + cols >= n) || (EastGlyphOpen(desc, cols, i) && i + 1 >= n)
  }

  /** The visit of node i raises, or makes the next step of the scan raise. */
  predicate NodeFaulty(desc: seq<string>, cols: nat, n: int, i: int)
    requires cols > 0
  {
    !NodeReadable(desc, cols, i) || LeavesGrid(desc, cols, n, i)
  }

  /** The error of the first faulty node among i .. n-1, visiting nodes in
      order: an unreadable glyph raises `IndexError` during the visit itself,
      which comes before the `RuntimeError` of the following step. */
  function FirstFault(desc: seq<string>, cols: nat, n: int, i: int): (r: Option<MapError>)
    requires cols > 0 && 0 <= i
    ensures r.None? <==> forall j :: i <= j < n ==> !NodeFaulty(desc, cols, n, j)
    ensures r.Some? ==> exists j :: i <= j < n && NodeFaulty(desc, cols, n, j)
                                 && (forall k :: i <= k < j ==> !NodeFaulty(desc, cols, n, k))
                                 && (r.value == IndexOutOfRange <==> !NodeReadable(desc, cols, j))
    ensures r.Some? ==> r.value != NegativeNodeCount
    decreases n - i
  {
    if i >= n then None
    else if !NodeReadable(desc, cols, i) then
      assert NodeFaulty(desc, cols, n, i);
      Some(IndexOutOfRange)
    else if LeavesGrid(desc, cols, n, i) then
      assert NodeFaulty(desc, cols, n, i);
      Some(GraphGrewDuringScan)
    else
      assert !NodeFaulty(desc, cols, n, i);
      FirstFault(desc, cols, n, i + 1)
  }

  /** No visit among the `n` scanned nodes is faulty. */
  predicate ScanClean(desc: seq<string>, cols: nat, n: int)
  {
    forall i :: 0 <= i < n ==> cols > 0 && !NodeFaulty(desc, cols, n, i)
  }

  /** `EnvGraph.__init__`: `rows` is the number of text rows minus the two frame
      rows, `cols` is half the width of the first row (rounded down). Every
      scanned node gets a south edge unless the character below it (the lower
      cell's own glyph, or the bottom frame) is `-`, and an
      east edge only if the glyph to its right is `:`. Building fails on an
      empty map, on a negative node count, and otherwise exactly when some
      node's visit is faulty; the error is the first faulty node's. */
  function Build(desc: seq<string>): (r: Result<EnvGraph, MapError>)
    ensures r.Success? <==>
              && |desc| > 0
              && !(|desc| - 2 < 0 < |desc[0]| / 2)
              && ScanClean(desc, |desc[0]| / 2, NodeCount(|desc| - 2, |desc[0]| / 2))
    ensures |desc| == 0 ==> r == Failure(IndexOutOfRange)
    ensures r == Failure(NegativeNodeCount) <==> |desc| > 0 && |desc| - 2 < 0 < |desc[0]| / 2
    ensures |desc| > 0 && r.Failure? && r.error != NegativeNodeCount ==>
              FirstFault(desc, |desc[0]| / 2, NodeCount(|desc| - 2, |desc[0]| / 2), 0) == Some(r.error)
    ensures r.Success? ==> Valid(r.value)
    ensures r.Success? ==> r.value.rows == |desc| - 2 && r.value.cols == |desc[0]| / 2
  {
    if |desc| == 0 then Failure(IndexOutOfRange)
    else
      var rows, cols := |desc| - 2, |desc[0]| / 2;
      if rows < 0 < cols then Failure(NegativeNodeCount)
      else if NodeCount(rows, cols) == 0 then Success(EnvGraph(rows, cols, [], []))
      else
        var n := rows * cols;
        match FirstFault(desc, cols, n, 0)
        case Some(e) => Failure(e)
        case None =>
          Success(EnvGraph(rows, cols,
                           seq(n, i requires 0 <= i < n => assert !NodeFaulty(desc, cols, n, i);
                                                            SouthGlyphOpen(desc, cols, i)),
                           seq(n, i requires 0 <= i < n => assert !NodeFaulty(desc, cols, n, i);
                                                            EastGlyphOpen(desc, cols, i))))
  }

  /** Where the scan can leave the grid: a node's south neighbour is past the
      grid exactly when it lies in the last row, and its east neighbour exactly
      when it is the last cell. */
  lemma LastRowFacts(g: EnvGraph, i: int)
    requires g.rows > 0 && g.cols > 0 && 0 <= i < g.rows * g.cols
    ensures i + g.cols >= g.rows * g.cols <==> NodeToCors(g, i).row == g.rows - 1
    ensures i + 1 >= g.rows * g.cols <==> NodeToCors(g, i) == Cell(g.rows - 1, g.cols - 1)
  {
    var c := NodeToCors(g, i);
    ScannedNodeRows(g, i);
    assert (g.rows - 1) * g.cols == g.rows * g.cols - g.cols;
    if c.row < g.rows - 1 {
      MultiplyMonotone(c.row, g.rows - 2, g.cols);
      assert (g.rows - 2) * g.cols == g.rows * g.cols - 2 * g.cols;
    }
  }

  /** On a map with at least one row and column whose glyphs are all readable,
      building succeeds exactly when the bottom frame is a wall under every
      cell and the right frame of the last row is not `:`. */
  lemma BuildSucceedsOnClosedFrame(desc: seq<string>)
    requires |desc| >= 3 && |desc[0]| / 2 > 0
    requires MapReadable(desc, |desc| - 2, |desc[0]| / 2)
    ensures Build(desc).Success? <==>
              (forall c :: 0 <= c < |desc[0]| / 2 ==> BottomWall(desc, c))
              && RightWall(desc, |desc[0]| / 2, |desc| - 3)
  {
    var rows, cols := |desc| - 2, |desc[0]| / 2;
    var n := rows * cols;
    var g := EnvGraph(rows, cols, seq(n, _ => false), seq(n, _ => false));
    ReadableByNodes(desc, rows, cols);
    if ScanClean(desc, cols, n) {
      forall c | 0 <= c < cols ensures BottomWall(desc, c) {
        var i := CorsToNode(g, Cell(rows - 1, c));
        GridCellIsScanned(g, rows - 1, c);
        LastRowFacts(g, i);
        assert !NodeFaulty(desc, cols, n, i);
      }
      GridCellIsScanned(g, rows - 1, cols - 1);
      LastRowFacts(g, n - 1);
      assert !NodeFaulty(desc, cols, n, n - 1);
    }
    if (forall c :: 0 <= c < cols ==> BottomWall(desc, c)) && RightWall(desc, cols, rows - 1) {
      forall i | 0 <= i < n ensures cols > 0 && !NodeFaulty(desc, cols, n, i) {
        LastRowFacts(g, i);
        assert BottomWall(desc, NodeToCors(g, i).col);
      }
    }
  }

  /** Without a `-` under some cell of the last row, building raises: the scan
      joins that cell to a node past the grid and the node table grows under
      the iteration. */
  lemma BottomGapFails(desc: seq<string>, c: int)
    requires |desc| >= 3 && 0 <= c < |desc[0]| / 2
    requires MapReadable(desc, |desc| - 2, |desc[0]| / 2)
    requires 2 * c + 1 < |desc[|desc| - 1]| && desc[|desc| - 1][2 * c + 1] != '-'
    ensures Build(desc) == Failure(GraphGrewDuringScan)
  {
    BuildSucceedsOnClosedFrame(desc);
    assert !BottomWall(desc, c);
    ReadableByNodes(desc, |desc| - 2, |desc[0]| / 2);
  }

  /** A `:` in the right frame of the last row makes building raise the same way. */
  lemma LastRightGapFails(desc: seq<string>)
    requires |desc| >= 3 && |desc[0]| / 2 > 0
    requires MapReadable(desc, |desc| - 2, |desc[0]| / 2)
    requires 2 * (|desc[0]| / 2) < |desc[|desc| - 2]| && desc[|desc| - 2][2 * (|desc[0]| / 2)] == ':'
    ensures Build(desc) == Failure(GraphGrewDuringScan)
  {
    BuildSucceedsOnClosedFrame(desc);
    ReadableByNodes(desc, |desc| - 2, |desc[0]| / 2);
  }

  /** A one-row map of width two or more raises; with fewer than two
      characters it builds the empty graph. */
  lemma OneRowMap(row: string)
    ensures |row| >= 2 ==> Build([row]) == Failure(NegativeNodeCount)
    ensures |row| < 2 ==> Build([row]) == Success(EnvGraph(-1, 0, [], []))
  {
  }

  // ---------------------------------------------------------------------------
  // Adjacency
  // ---------------------------------------------------------------------------

  /** The scan added the edge u -- v while visiting node u. */
  predicate Edge(g: EnvGraph, u: int, v: int)
    requires Valid(g)
  {
    0 <= u < |g.south| && ((g.south[u] && v == u + g.cols) || (g.east[u] && v == u + 1))
  }

  /** The graph is undirected. */
  predicate Adj(g: EnvGraph, u: int, v: int)
    requires Valid(g)
  {
    Edge(g, u, v) || Edge(g, v, u)
  }

  /** A node of the networkx graph: a scanned node, or one that an edge added.
      On a graph that `Build` returns no edge leaves the scanned nodes
      (`BuiltGraphIsClosed`), so there this is `0 <= n < |g.south|`. */
  predicate InGraph(g: EnvGraph, n: int)
    requires Valid(g)
  {
    0 <= n < |g.south| || Edge(g, n - g.cols, n) || Edge(g, n - 1, n)
  }

  /** Every node any edge touches lies below this bound. */
  function Bound(g: EnvGraph): nat
  {
    if |g.south| > 0 then |g.south| + g.cols else 0
  }

  /** The only nodes that can neighbour v. */
  function Candidates(g: EnvGraph, v: int): seq<int>
  {
    [v - g.cols, v + g.cols, v - 1, v + 1]
  }

  /** What an edge implies about its endpoints: both are graph nodes below the
      bound, the grid has columns, there are no self-loops, and each endpoint is
      one of the other's candidates. */
  lemma AdjFacts(g: EnvGraph, u: int, v: int)
    requires Valid(g) && Adj(g, u, v)
    ensures InGraph(g, u) && InGraph(g, v)
    ensures 0 <= u < Bound(g) && 0 <= v < Bound(g)
    ensures g.cols > 0 && u != v
    ensures u in Candidates(g, v) && v in Candidates(g, u)
  {
    assert g.cols > 0;
  }

  /** Every graph node other than a scanned one is the far end of an edge. */
  lemma InGraphHasColumns(g: EnvGraph, n: int)
    requires Valid(g) && InGraph(g, n)
    ensures g.cols > 0 && 0 <= n < Bound(g)
  {
  }

  // ---------------------------------------------------------------------------
  // The edge rules, stated on coordinates
  // ---------------------------------------------------------------------------

  /** A cell inside the grid is a scanned node that maps back to it. */
  lemma GridCellIsScanned(g: EnvGraph, r: int, c: int)
    requires Valid(g) && 0 <= r < g.rows && 0 <= c < g.cols
    ensures 0 <= CorsToNode(g, Cell(r, c)) < |g.south|
    ensures NodeToCors(g, CorsToNode(g, Cell(r, c))) == Cell(r, c)
  {
    CoordinateRoundTrip(g, Cell(r, c));
    ScannedNodeRows(g, CorsToNode(g, Cell(r, c)));
  }

  /** The edge flags of a built graph are the glyph tests of the scan. */
  lemma BuiltFlags(desc: seq<string>, g: EnvGraph, i: int)
    requires Build(desc) == Success(g) && 0 <= i < |g.south|
    ensures g.cols > 0 && NodeReadable(desc, g.cols, i)
    ensures g.south[i] == SouthGlyphOpen(desc, g.cols, i)
    ensures g.east[i] == EastGlyphOpen(desc, g.cols, i)
    ensures !LeavesGrid(desc, g.cols, |g.south|, i)
  {
    assert g.cols > 0 && !NodeFaulty(desc, g.cols, |g.south|, i);
  }

  /** Cell (r, c) and the cell below it are joined exactly when the
      character at position 2c+1 of text row r+2 is not `-`. That character
      is the lower cell's own glyph, or the bottom frame for the last row.
      With a single column this fails: the east check then also joins a cell
      to the one below it. */
  lemma SouthEdgeRule(desc: seq<string>, g: EnvGraph, r: int, c: int)
    requires Build(desc) == Success(g)
    requires 0 <= r < g.rows && 0 <= c < g.cols && g.cols >= 2
    ensures Adj(g, CorsToNode(g, Cell(r, c)), CorsToNode(g, Cell(r + 1, c))) <==>
            (CellReadable(desc, r, c) && desc[r + 2][2 * c + 1] != '-')
  {
    var cols := g.cols;
    var i := CorsToNode(g, Cell(r, c));
    GridCellIsScanned(g, r, c);
    assert i / cols == r && i % cols == c;
    BuiltFlags(desc, g, i);
    assert CellReadable(desc, r, c);
    assert g.south[i] <==> desc[r + 2][2 * c + 1] != '-';
    assert CorsToNode(g, Cell(r + 1, c)) == i + cols;
    assert !Edge(g, i + cols, i);
    assert Edge(g, i, i + cols) <==> g.south[i];
  }

  /** Cell (r, c) and the cell to its right are joined exactly when the glyph
      between them is `:`. */
  lemma EastEdgeRule(desc: seq<string>, g: EnvGraph, r: int, c: int)
    requires Build(desc) == Success(g)
    requires 0 <= r < g.rows && 0 <= c && c + 1 < g.cols
    ensures Adj(g, CorsToNode(g, Cell(r, c)), CorsToNode(g, Cell(r, c + 1))) <==>
            (CellReadable(desc, r, c) && desc[r + 1][2 * c + 2] == ':')
  {
    var i := CorsToNode(g, Cell(r, c));
    GridCellIsScanned(g, r, c);
    BuiltFlags(desc, g, i);
  }

  /** The bottom frame glyph under column c is a wall. */
  predicate BottomWall(desc: seq<string>, c: int)
  {
    |desc| > 0 && 0 <= 2 * c + 1 < |desc[|desc| - 1]| && desc[|desc| - 1][2 * c + 1] == '-'
  }

  /** The right frame glyph of grid row r is not a corridor. */
  predicate RightWall(desc: seq<string>, cols: nat, r: int)
  {
    0 <= r && r + 1 < |desc| && 2 * cols < |desc[r + 1]| && desc[r + 1][2 * cols] != ':'
  }

  /** Every edge of a built graph joins two scanned nodes, so its nodes are
      exactly the scanned ones. */
  lemma BuiltGraphIsClosed(desc: seq<string>, g: EnvGraph, u: int, v: int)
    requires Build(desc) == Success(g)
    ensures Adj(g, u, v) ==> 0 <= u < |g.south| && 0 <= v < |g.south|
    ensures InGraph(g, v) <==> 0 <= v < |g.south|
  {
    if Edge(g, u, v) {
      EdgeStaysInside(desc, g, u, v);
    }
    if Edge(g, v, u) {
      EdgeStaysInside(desc, g, v, u);
    }
    if Edge(g, v - g.cols, v) {
      EdgeStaysInside(desc, g, v - g.cols, v);
    }
    if Edge(g, v - 1, v) {
      EdgeStaysInside(desc, g, v - 1, v);
    }
  }

  lemma EdgeStaysInside(desc: seq<string>, g: EnvGraph, u: int, v: int)
    requires Build(desc) == Success(g)
    requires Edge(g, u, v)
    ensures 0 <= v < |g.south|
  {
    BuiltFlags(desc, g, u);
    assert !LeavesGrid(desc, g.cols, |g.south|, u);
  }

  /** A `:` in the right frame joins the last cell of a row to the first cell
      of the next row. */
  lemma RightGapWraps(desc: seq<string>, g: EnvGraph, r: int)
    requires Build(desc) == Success(g)
    requires 0 <= r && r + 1 < g.rows && g.cols >= 2
    requires 2 * g.cols < |desc[r + 1]| && desc[r + 1][2 * g.cols] == ':'
    ensures Adj(g, CorsToNode(g, Cell(r, g.cols - 1)), CorsToNode(g, Cell(r + 1, 0)))
  {
    var cols := g.cols;
    var i := CorsToNode(g, Cell(r, cols - 1));
    GridCellIsScanned(g, r, cols - 1);
    assert i / cols == r && i % cols == cols - 1;
    BuiltFlags(desc, g, i);
    assert g.east[i] by {
      assert 2 * (i % cols) + 2 == 2 * cols;
    }
    assert CorsToNode(g, Cell(r + 1, 0)) == i + 1 by {
      assert (r + 1) * cols == r * cols + cols;
    }
    assert Edge(g, i, i + 1);
  }
}
