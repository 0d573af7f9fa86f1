/** Where the bits of a QR code go: two columns at a time, up and down, never column 6. */
module QrGrid {
  import opened Common
  import opened JsBits

  type Cell = (int, int)

  type Mask = (int, int) -> bool

  /** Null until it is set. */
  type Module = Option<bool>

  ghost predicate IsSize(n: int) {
    n >= 21 && n % 2 == 1
  }

  // ---------- the path ----------

  /** The right column of the p-th pair. */
  function Right(n: int, p: int): int {
    if n - 1 - 2 * p > 6 then n - 1 - 2 * p else n - 2 - 2 * p
  }

  /** The first pair goes up, and every pair turns around. */
  predicate GoesUp(p: int)
    decreases p
  {
    p <= 0 || !GoesUp(p - 1)
  }

  /** The i-th row of the p-th pair. */
  function RowAt(n: int, p: int, i: int): int {
    if GoesUp(p) then n - 1 - i else i
  }

  /** The cells from row i of pair p on, in the order of the visit. */
  function Path(n: int, p: int, i: int): seq<Cell>
    requires n > 0 && 0 <= i <= n && 0 <= p
    decreases n - p, n - i
  {
    if 2 * p >= n - 1 then []
    else if i == n then Path(n, p + 1, 0)
    else [(RowAt(n, p, i), Right(n, p)), (RowAt(n, p, i), Right(n, p) - 1)] + Path(n, p, i + 1)
  }

  /** The pair that visits a column, and the turn at which it visits a row. */
  function PairOf(n: int, col: int): int {
    if col > 6 then (n - 1 - col) / 2 else (n - 2 - col) / 2
  }

  function TurnOf(n: int, cell: Cell): int {
    var p := PairOf(n, cell.1);
    if GoesUp(p) then n - 1 - cell.0 else cell.0
  }

  predicate InGrid(n: int, cell: Cell) {
    0 <= cell.0 < n && 0 <= cell.1 < n && cell.1 != 6
  }

  /** Visited at turn i of pair p or later. */
  predicate NotBefore(n: int, p: int, i: int, cell: Cell) {
    PairOf(n, cell.1) > p || (PairOf(n, cell.1) == p && TurnOf(n, cell) >= i)
  }

  lemma PairColumns(n: int, p: int)
    requires IsSize(n) && 0 <= 2 * p < n - 1
    ensures 0 < Right(n, p) < n && Right(n, p) != 6 && Right(n, p) - 1 != 6
    ensures PairOf(n, Right(n, p)) == p && PairOf(n, Right(n, p) - 1) == p
  {
  }

  lemma ColumnPair(n: int, col: int)
    requires IsSize(n) && 0 <= col < n && col != 6
    ensures 0 <= 2 * PairOf(n, col) < n - 1
    ensures col == Right(n, PairOf(n, col)) || col == Right(n, PairOf(n, col)) - 1
  {
  }

  /** What is visited at turn i of pair p, and not later. */
  lemma VisitedNow(n: int, p: int, i: int, cell: Cell)
    requires IsSize(n) && 0 <= 2 * p < n - 1 && 0 <= i < n
    ensures var row, right := RowAt(n, p, i), Right(n, p);
            InGrid(n, cell) && NotBefore(n, p, i, cell)
            <==> cell == (row, right) || cell == (row, right - 1) || (InGrid(n, cell) && NotBefore(n, p, i + 1, cell))
  {
    PairColumns(n, p);
    if InGrid(n, cell) { ColumnPair(n, cell.1); }
  }

  /** The path visits every cell outside column 6 from its place on, and nothing else. */
  lemma {:induction false} PathCovers(n: int, p: int, i: int, cell: Cell)
    requires IsSize(n) && 0 <= p && 0 <= i <= n
    ensures cell in Path(n, p, i) <==> InGrid(n, cell) && NotBefore(n, p, i, cell)
    decreases n - p, n - i
  {
    if 2 * p >= n - 1 {
      if InGrid(n, cell) { ColumnPair(n, cell.1); }
    } else if i == n {
      PathCovers(n, p + 1, 0, cell);
    } else {
      PathCovers(n, p, i + 1, cell);
      VisitedNow(n, p, i, cell);
    }
  }

  ghost predicate Distinct(path: seq<Cell>) {
    forall i, j :: 0 <= i < j < |path| ==> path[i] != path[j]
  }

  lemma DistinctFront(a: Cell, b: Cell, path: seq<Cell>)
    requires a != b && a !in path && b !in path && Distinct(path)
    ensures Distinct([a, b] + path)
  {
  }

  lemma NotLater(n: int, p: int, i: int)
    requires IsSize(n) && 0 <= 2 * p < n - 1 && 0 <= i < n
    ensures (RowAt(n, p, i), Right(n, p)) !in Path(n, p, i + 1)
    ensures (RowAt(n, p, i), Right(n, p) - 1) !in Path(n, p, i + 1)
  {
    PairColumns(n, p);
    PathCovers(n, p, i + 1, (RowAt(n, p, i), Right(n, p)));
    PathCovers(n, p, i + 1, (RowAt(n, p, i), Right(n, p) - 1));
  }

  lemma TurnDistinct(n: int, p: int, i: int)
    requires IsSize(n) && 0 <= 2 * p < n - 1 && 0 <= i < n && Distinct(Path(n, p, i + 1))
    ensures Distinct(Path(n, p, i))
  {
    NotLater(n, p, i);
    DistinctFront((RowAt(n, p, i), Right(n, p)), (RowAt(n, p, i), Right(n, p) - 1), Path(n, p, i + 1));
  }

  lemma {:induction false} PathDistinct(n: int, p: int, i: int)
    requires IsSize(n) && 0 <= p && 0 <= i <= n
    ensures Distinct(Path(n, p, i))
    decreases n - p, n - i
  {
    if 2 * p < n - 1 {
      if i == n {
        PathDistinct(n, p + 1, 0);
      } else {
        PathDistinct(n, p, i + 1);
        TurnDistinct(n, p, i);
      }
    }
  }

  // ---------- the order of the visit ----------

  /**
    When a cell is visited, counted from the lower right corner: the pairs of columns from right to left without
    column 6, the first and every other one upwards, and in each row the right cell first.
   */
  function Rank(n: int, cell: Cell): int {
    var (r, c) := cell;
    var p := if c > 6 then (n - 1 - c) / 2 else (n - 2 - c) / 2;
    var b := if c > 6 then (n - 1 - c) % 2 else (n - 2 - c) % 2;
    2 * (n * p + if p % 2 == 0 then n - 1 - r else r) + b
  }

  lemma {:induction false} UpIsEven(p: int)
    requires p >= 0
    ensures GoesUp(p) <==> p % 2 == 0
  {
    if p > 0 {
      UpIsEven(p - 1);
    }
  }

  lemma TurnRanks(n: int, p: int, i: int)
    requires IsSize(n) && 0 <= 2 * p < n - 1 && 0 <= i < n
    ensures Rank(n, (RowAt(n, p, i), Right(n, p))) == 2 * (n * p + i)
    ensures Rank(n, (RowAt(n, p, i), Right(n, p) - 1)) == 2 * (n * p + i) + 1
  {
    UpIsEven(p);
    PairColumns(n, p);
  }

  lemma NextPairRank(n: int, p: int)
    ensures 2 * (n * p + n) == 2 * (n * (p + 1))
  {
  }

  lemma {:induction false} PathRanks(n: int, p: int, i: int, k: int)
    requires IsSize(n) && 0 <= p && 0 <= i <= n && 0 <= k < |Path(n, p, i)|
    ensures Rank(n, Path(n, p, i)[k]) == 2 * (n * p + i) + k
    decreases n - p, n - i
  {
    if i == n {
      PathRanks(n, p + 1, 0, k);
      NextPairRank(n, p);
    } else {
      TurnRanks(n, p, i);
      if k >= 2 {
        PathRanks(n, p, i + 1, k - 2);
      }
    }
  }

  lemma PathAtRank(n: int, cell: Cell)
    requires IsSize(n) && InGrid(n, cell)
    ensures 0 <= Rank(n, cell) < |Path(n, 0, 0)| && Path(n, 0, 0)[Rank(n, cell)] == cell
  {
    ColumnPair(n, cell.1);
    PathCovers(n, 0, 0, cell);
    var k :| 0 <= k < |Path(n, 0, 0)| && Path(n, 0, 0)[k] == cell;
    PathRanks(n, 0, 0, k);
    assert n * 0 == 0;
  }

  /** The k-th cell visited, for every pair p, turn i and side b. */
  lemma PathAt(n: int, p: int, i: int, b: int)
    requires IsSize(n) && 0 <= 2 * p < n - 1 && 0 <= i < n && 0 <= b <= 1
    ensures var right := if n - 1 - 2 * p > 6 then n - 1 - 2 * p else n - 2 - 2 * p;
            var k := 2 * (n * p + i) + b;
            0 <= k < |Path(n, 0, 0)|
            && Path(n, 0, 0)[k] == (if p % 2 == 0 then n - 1 - i else i, right - b)
  {
    PairColumns(n, p);
    PathAtRank(n, (RowAt(n, p, i), Right(n, p) - b));
    TurnRanks(n, p, i);
    UpIsEven(p);
  }

  ghost predicate InOrder(n: int, cells: seq<Cell>) {
    forall s, t :: 0 <= s < t < |cells| ==> Rank(n, cells[s]) < Rank(n, cells[t])
  }

  lemma PathInOrder(n: int)
    requires IsSize(n)
    ensures InOrder(n, Path(n, 0, 0))
  {
    var path := Path(n, 0, 0);
    forall s, t | 0 <= s < t < |path|
      ensures Rank(n, path[s]) < Rank(n, path[t])
    {
      PathRanks(n, 0, 0, s);
      PathRanks(n, 0, 0, t);
    }
  }

  // ---------- placing bits along a path ----------

  /** Bit t of the data, the highest of each byte first; nothing but zeros behind it. */
  function Bit(data: seq<nat>, t: nat): bool {
    t / 8 < |data| && Shr(data[t / 8], 7 - t % 8) % 2 == 1
  }

  lemma BitIs(data: seq<nat>, t: nat)
    ensures Bit(data, t) <==> t / 8 < |data| && data[t / 8] / Pow2(7 - t % 8) % 2 == 1
  {
    if t / 8 < |data| {
      ShrDivides(data[t / 8], 7 - t % 8);
    }
  }

  /** A number written in bits, the highest first. */
  function Number(bits: seq<bool>): nat {
    if |bits| == 0 then 0 else 2 * Number(bits[..|bits| - 1]) + if bits[|bits| - 1] then 1 else 0
  }

  lemma ShrNext(v: nat, k: nat)
    ensures Shr(v, k) == 2 * Shr(v, k + 1) + Shr(v, k) % 2
  {
    ShrAdd(v, k, 1);
    assert Shr(Shr(v, k), 1) == Shr(v, k) / 2;
  }

  /** The first j bits of a byte are what is left above the others. */
  lemma {:induction false} LeadingBits(data: seq<nat>, k: nat, bits: seq<bool>, j: nat)
    requires k < |data| && data[k] < 256 && j <= |bits| == 8
    requires forall i :: 0 <= i < 8 ==> bits[i] == Bit(data, 8 * k + i)
    ensures Number(bits[..j]) == Shr(data[k], 8 - j)
  {
    if j == 0 {
      assert Pow2(8) == 256;
      ShrZero(data[k], 8);
    } else {
      LeadingBits(data, k, bits, j - 1);
      assert bits[..j][..j - 1] == bits[..j - 1];
      assert (8 * k + (j - 1)) / 8 == k && (8 * k + (j - 1)) % 8 == j - 1;
      ShrNext(data[k], 8 - j);
    }
  }

  /** Eight bits in a row are a byte of the data. */
  lemma ByteBits(data: seq<nat>, k: nat, bits: seq<bool>)
    requires k < |data| && data[k] < 256 && |bits| == 8
    requires forall i :: 0 <= i < 8 ==> bits[i] == Bit(data, 8 * k + i)
    ensures Number(bits) == data[k]
  {
    LeadingBits(data, k, bits, 8);
    assert bits[..8] == bits;
  }

  lemma BitsByte(bits: seq<bool>, data: seq<nat>, k: nat)
    requires bits == seq(|bits|, t requires 0 <= t < |bits| => Bit(data, t))
    requires k < |data| && data[k] < 256 && 8 * k + 8 <= |bits|
    ensures Number(bits[8 * k..8 * k + 8]) == data[k]
  {
    var byte := bits[8 * k..8 * k + 8];
    forall i | 0 <= i < 8
      ensures byte[i] == Bit(data, 8 * k + i)
    {
      assert byte[i] == bits[8 * k + i];
    }
    ByteBits(data, k, byte);
  }

  /** The modules that are set, and the number of bits placed. */
  datatype Grid = Grid(cells: map<Cell, bool>, count: nat)

  function Visit(g: Grid, cell: Cell, data: seq<nat>, mask: Mask): Grid {
    if cell in g.cells then g
    else Grid(g.cells[cell := Bit(data, g.count) != mask(cell.0, cell.1)], g.count + 1)
  }

  function Walk(g: Grid, path: seq<Cell>, data: seq<nat>, mask: Mask): Grid
    decreases |path|
  {
    if |path| == 0 then g else Walk(Visit(g, path[0], data, mask), path[1..], data, mask)
  }

  /** The cells of a path that are not set yet. */
  function Free(g: map<Cell, bool>, path: seq<Cell>): seq<Cell> {
    if |path| == 0 then [] else (if path[0] in g then [] else [path[0]]) + Free(g, path[1..])
  }

  lemma {:induction false} FreeWithin(g: map<Cell, bool>, path: seq<Cell>, cell: Cell)
    ensures cell in Free(g, path) <==> cell in path && cell !in g
  {
    if |path| > 0 {
      FreeWithin(g, path[1..], cell);
      assert path == [path[0]] + path[1..];
    }
  }

  lemma {:induction false} FreeInOrder(n: int, g: map<Cell, bool>, path: seq<Cell>)
    requires InOrder(n, path)
    ensures InOrder(n, Free(g, path))
  {
    if |path| > 0 {
      var rest := Free(g, path[1..]);
      FreeInOrder(n, g, path[1..]);
      forall t | 0 <= t < |rest|
        ensures Rank(n, path[0]) < Rank(n, rest[t])
      {
        FreeWithin(g, path[1..], rest[t]);
      }
    }
  }

  lemma {:induction false} FreeUnaffected(g: map<Cell, bool>, cell: Cell, v: bool, path: seq<Cell>)
    requires cell !in path
    ensures Free(g[cell := v], path) == Free(g, path)
  {
    if |path| > 0 {
      FreeUnaffected(g, cell, v, path[1..]);
    }
  }

  /** A walk keeps what was set, sets all it passes, and leaves its other free cells for later. */
  lemma {:induction false} WalkKeeps(g: Grid, path: seq<Cell>, data: seq<nat>, mask: Mask)
    ensures var placed := Walk(g, path, data, mask).cells;
            && (forall cell :: cell in placed <==> cell in g.cells || cell in path)
            && (forall cell :: cell in g.cells ==> placed[cell] == g.cells[cell])
    decreases |path|
  {
    if |path| > 0 {
      WalkKeeps(Visit(g, path[0], data, mask), path[1..], data, mask);
    }
  }

  /** A cell that is set is passed over. */
  lemma WalkPasses(g: Grid, path: seq<Cell>, data: seq<nat>, mask: Mask)
    requires |path| > 0 && path[0] in g.cells
    ensures Walk(g, path, data, mask) == Walk(g, path[1..], data, mask)
    ensures Free(g.cells, path) == Free(g.cells, path[1..])
  {
  }

  /** A free cell is set, and the others stay free. */
  lemma WalkSets(g: Grid, path: seq<Cell>, data: seq<nat>, mask: Mask)
    requires Distinct(path) && |path| > 0 && path[0] !in g.cells
    ensures var h, rest := Visit(g, path[0], data, mask), path[1..];
            && Walk(g, path, data, mask) == Walk(h, rest, data, mask) && Distinct(rest)
            && Free(g.cells, path) == [path[0]] + Free(h.cells, rest)
  {
    var h := Visit(g, path[0], data, mask);
    assert path == [path[0]] + path[1..] && path[0] !in path[1..];
    FreeUnaffected(g.cells, path[0], h.cells[path[0]], path[1..]);
  }

  /** The t-th free cell of the path holds bit t, masked. */
  lemma {:induction false} WalkWrites(g: Grid, path: seq<Cell>, data: seq<nat>, mask: Mask, t: nat, k: nat, cell: Cell,
                                      dark: bool)
    requires Distinct(path) && t < |Free(g.cells, path)| && cell == Free(g.cells, path)[t]
    requires k == g.count + t && dark == (Bit(data, k) != mask(cell.0, cell.1))
    ensures cell in Walk(g, path, data, mask).cells && Walk(g, path, data, mask).cells[cell] == dark
    decreases |path|
  {
    if path[0] in g.cells {
      WalkPasses(g, path, data, mask);
      WalkWrites(g, path[1..], data, mask, t, k, cell, dark);
    } else {
      var h := Visit(g, path[0], data, mask);
      WalkSets(g, path, data, mask);
      if t == 0 {
        WalkKeeps(h, path[1..], data, mask);
      } else {
        WalkWrites(h, path[1..], data, mask, t - 1, k, cell, dark);
      }
    }
  }

  lemma {:induction false} WalkCounts(g: Grid, path: seq<Cell>, data: seq<nat>, mask: Mask)
    requires Distinct(path)
    ensures Walk(g, path, data, mask).count == g.count + |Free(g.cells, path)|
    ensures Distinct(Free(g.cells, path))
    ensures forall cell :: cell in Free(g.cells, path) <==> cell in path && cell !in g.cells
    decreases |path|
  {
    if |path| > 0 {
      var head, rest := path[0], path[1..];
      assert path == [head] + rest && head !in rest;
      var h := Visit(g, head, data, mask);
      WalkCounts(h, rest, data, mask);
      if head !in g.cells {
        FreeUnaffected(g.cells, head, h.cells[head], rest);
      }
    }
  }

  /** Reading the free cells in order and taking the mask off gives the data bits, then zeros. */
  function ReadBack(cells: map<Cell, bool>, free: seq<Cell>, mask: Mask): seq<bool> {
    seq(|free|, t requires 0 <= t < |free| =>
      (if free[t] in cells then cells[free[t]] else false) != mask(free[t].0, free[t].1))
  }

  lemma PathIsGrid(n: int)
    requires IsSize(n)
    ensures forall cell :: cell in Path(n, 0, 0) <==> InGrid(n, cell)
  {
    forall cell
      ensures cell in Path(n, 0, 0) <==> InGrid(n, cell)
    {
      PathCovers(n, 0, 0, cell);
      if InGrid(n, cell) { ColumnPair(n, cell.1); }
    }
  }

  lemma PlacedAndRead(n: int, g: map<Cell, bool>, data: seq<nat>, mask: Mask)
    requires IsSize(n)
    ensures var path := Path(n, 0, 0);
            var free := Free(g, path);
            var placed := Walk(Grid(g, 0), path, data, mask);
            && (forall cell :: cell in g ==> cell in placed.cells && placed.cells[cell] == g[cell])
            && (forall cell :: InGrid(n, cell) ==> cell in placed.cells)
            && (forall cell :: cell in free <==> InGrid(n, cell) && cell !in g)
            && Distinct(free) && placed.count == |free|
            && ReadBack(placed.cells, free, mask) == seq(|free|, t requires 0 <= t < |free| => Bit(data, t))
  {
    var path := Path(n, 0, 0);
    var free := Free(g, path);
    var placed := Walk(Grid(g, 0), path, data, mask);
    PathDistinct(n, 0, 0);
    WalkKeeps(Grid(g, 0), path, data, mask);
    WalkCounts(Grid(g, 0), path, data, mask);
    PathIsGrid(n);
    forall t | 0 <= t < |free|
      ensures ReadBack(placed.cells, free, mask)[t] == Bit(data, t)
    {
      var cell := free[t];
      WalkWrites(Grid(g, 0), path, data, mask, t, t, cell, Bit(data, t) != mask(cell.0, cell.1));
    }
  }

  // ---------- the modules themselves ----------

  /** The array shows the grid: null where a cell is not set. */
  ghost predicate Shows(modules: array2<Module>, cells: map<Cell, bool>)
    reads modules
  {
    && modules.Length0 == modules.Length1
    && forall r, c :: 0 <= r < modules.Length0 && 0 <= c < modules.Length1 ==>
         modules[r, c] == if (r, c) in cells then Some(cells[(r, c)]) else None
  }

  /** The next bit to place, as mapData counts it. */
  predicate AtBit(bitIndex: int, byteIndex: int, count: nat) {
    0 <= bitIndex < 8 && 0 <= byteIndex && count == 8 * byteIndex + 7 - bitIndex
  }

  /** One module of the walk. */
  method PlaceModule(modules: array2<Module>, ghost g: Grid, r: int, c: int, data: seq<nat>, mask: Mask, bitIndex: int,
                     byteIndex: int)
    returns (bitIndex': int, byteIndex': int, ghost g': Grid)
    requires Shows(modules, g.cells) && 0 <= r < modules.Length0 && 0 <= c < modules.Length1
             && AtBit(bitIndex, byteIndex, g.count)
    modifies modules
    ensures g' == Visit(g, (r, c), data, mask) && Shows(modules, g'.cells) && AtBit(bitIndex', byteIndex', g'.count)
  {
    bitIndex', byteIndex', g' := bitIndex, byteIndex, Visit(g, (r, c), data, mask);
    if modules[r, c] == None {
      var dark := false;
      assert g.count / 8 == byteIndex && g.count % 8 == 7 - bitIndex;
      if byteIndex < |data| {
        dark := Shr(data[byteIndex], bitIndex) % 2 == 1;
      }
      if mask(r, c) {
        dark := !dark;
      }
      modules[r, c] := Some(dark);
      bitIndex' := bitIndex - 1;
      if bitIndex' == -1 {
        byteIndex' := byteIndex + 1;
        bitIndex' := 7;
      }
    }
  }

  lemma WalkTwo(g: Grid, a: Cell, b: Cell, path: seq<Cell>, data: seq<nat>, mask: Mask)
    ensures Walk(g, [a, b] + path, data, mask) == Walk(Visit(Visit(g, a, data, mask), b, data, mask), path, data, mask)
  {
    assert ([a, b] + path)[1..] == [b] + path;
    assert ([b] + path)[1..] == path;
  }

  /** The two modules of one row of a pair. */
  method PlaceRow(modules: array2<Module>, ghost g: Grid, r: int, col: int, data: seq<nat>, mask: Mask, bitIndex: int,
                  byteIndex: int, ghost path: seq<Cell>)
    returns (bitIndex': int, byteIndex': int, ghost g': Grid)
    requires Shows(modules, g.cells) && 0 <= r < modules.Length0 && 0 < col < modules.Length1
             && AtBit(bitIndex, byteIndex, g.count)
    modifies modules
    ensures Shows(modules, g'.cells) && AtBit(bitIndex', byteIndex', g'.count)
    ensures Walk(g, [(r, col), (r, col - 1)] + path, data, mask) == Walk(g', path, data, mask)
  {
    WalkTwo(g, (r, col), (r, col - 1), path, data, mask);
    bitIndex', byteIndex', g' := PlaceModule(modules, g, r, col, data, mask, bitIndex, byteIndex);
    bitIndex', byteIndex', g' := PlaceModule(modules, g', r, col - 1, data, mask, bitIndex', byteIndex');
  }

  ghost predicate Remains(n: int, g: Grid, p: int, i: int, data: seq<nat>, mask: Mask, final: Grid)
    requires n > 0 && 0 <= i <= n && 0 <= p
  {
    Walk(g, Path(n, p, i), data, mask) == final
  }

  lemma NextRow(n: int, g: Grid, g': Grid, p: int, i: int, data: seq<nat>, mask: Mask, final: Grid)
    requires n > 0 && 0 <= i < n && 0 <= 2 * p < n - 1 && Remains(n, g, p, i, data, mask, final)
    requires Walk(g, [(RowAt(n, p, i), Right(n, p)), (RowAt(n, p, i), Right(n, p) - 1)] + Path(n, p, i + 1), data, mask)
          == Walk(g', Path(n, p, i + 1), data, mask)
    ensures Remains(n, g', p, i + 1, data, mask, final)
  {
  }

  lemma NextPair(n: int, g: Grid, p: int, data: seq<nat>, mask: Mask, final: Grid)
    requires n > 0 && 0 <= 2 * p < n - 1 && Remains(n, g, p, n, data, mask, final)
    ensures Remains(n, g, p + 1, 0, data, mask, final)
  {
  }

  /** The row of turn i and the way to the next. */
  ghost predicate Turn(n: int, p: int, i: int, row: int, inc: int) {
    row == RowAt(n, p, i) && inc == if GoesUp(p) then -1 else 1
  }

  /** The row of turn i while there is one, and then where the next pair begins. */
  ghost predicate AtTurn(n: int, p: int, i: int, row: int, inc: int, more: bool) {
    if more then i < n && Turn(n, p, i, row, inc) else i >= n && Turn(n, p + 1, 0, row, -inc)
  }

  lemma NextTurn(n: int, p: int, i: int, row: int, inc: int)
    requires 0 <= i < n && 0 <= p && Turn(n, p, i, row, inc)
    ensures 0 <= row < n
    ensures 0 <= row + inc < n <==> i + 1 < n
    ensures i + 1 < n ==> Turn(n, p, i + 1, row + inc, inc)
    ensures i + 1 == n ==> Turn(n, p + 1, 0, row, -inc)
  {
  }

  /** The column mapData holds before it looks for the timing column. */
  function ColumnAt(n: int, p: int): int {
    if n - 1 - 2 * p >= 6 then n - 1 - 2 * p else n - 2 - 2 * p
  }

  lemma NextColumn(n: int, p: int)
    requires IsSize(n) && 0 <= 2 * p <= n - 1
    ensures ColumnAt(n, p) > 0 <==> 2 * p < n - 1
    ensures var col := ColumnAt(n, p);
            var right := if col == 6 then col - 1 else col;
            col > 0 ==> right == Right(n, p) && right - 2 == ColumnAt(n, p + 1)
  {
  }

  lemma NoneRemains(n: int, g: Grid, p: int, data: seq<nat>, mask: Mask, final: Grid)
    requires n > 0 && p >= 0 && 2 * p >= n - 1 && Remains(n, g, p, 0, data, mask, final)
    ensures g == final
  {
  }

  /** Turn i of pair p is next: what is placed so far, and that the rest leads to the final grid. */
  ghost predicate Placing(modules: array2<Module>, g: Grid, bitIndex: int, byteIndex: int, n: int, p: int, i: int,
                          data: seq<nat>, mask: Mask, final: Grid)
    requires n > 0 && 0 <= i <= n && 0 <= p
    reads modules
  {
    Shows(modules, g.cells) && AtBit(bitIndex, byteIndex, g.count) && Remains(n, g, p, i, data, mask, final)
  }

  /** One row of a pair: the next row, and whether the pair has one. */
  method MapRow(modules: array2<Module>, ghost g: Grid, ghost p: nat, ghost i: nat, col: int, data: seq<nat>,
                mask: Mask, row: int, inc: int, bitIndex: int, byteIndex: int, ghost final: Grid)
    returns (row': int, more: bool, bitIndex': int, byteIndex': int, ghost g': Grid)
    requires 2 * p < modules.Length0 - 1 && 0 < col == Right(modules.Length0, p) < modules.Length0 == modules.Length1
    requires i < modules.Length0 && Turn(modules.Length0, p, i, row, inc)
    requires Placing(modules, g, bitIndex, byteIndex, modules.Length0, p, i, data, mask, final)
    modifies modules
    ensures AtTurn(modules.Length0, p, i + 1, row', inc, more)
    ensures Placing(modules, g', bitIndex', byteIndex', modules.Length0, p, i + 1, data, mask, final)
  {
    var n := modules.Length0;
    NextTurn(n, p, i, row, inc);
    bitIndex', byteIndex', g' := PlaceRow(modules, g, row, col, data, mask, bitIndex, byteIndex, Path(n, p, i + 1));
    NextRow(n, g, g', p, i, data, mask, final);
    row', more := row + inc, true;
    if row' < 0 || n <= row' {
      row', more := row' - inc, false;
    }
  }

  /** One pair of columns, from the row where the last one ended; returns where this one ends. */
  method MapColumns(modules: array2<Module>, ghost g: Grid, ghost p: nat, col: int, data: seq<nat>, mask: Mask,
                    row: int, inc: int, bitIndex: int, byteIndex: int, ghost final: Grid)
    returns (row': int, bitIndex': int, byteIndex': int, ghost g': Grid)
    requires IsSize(modules.Length0) && 2 * p < modules.Length0 - 1 && col == Right(modules.Length0, p)
    requires Turn(modules.Length0, p, 0, row, inc)
    requires Placing(modules, g, bitIndex, byteIndex, modules.Length0, p, 0, data, mask, final)
    modifies modules
    ensures Turn(modules.Length0, p + 1, 0, row', -inc)
    ensures Placing(modules, g', bitIndex', byteIndex', modules.Length0, p + 1, 0, data, mask, final)
  {
    var more := true;
    row', bitIndex', byteIndex', g' := row, bitIndex, byteIndex, g;
    ghost var n, i := modules.Length0, 0;
    PairColumns(n, p);
    while more
      invariant 0 <= i <= n && AtTurn(n, p, i, row', inc, more)
      invariant Placing(modules, g', bitIndex', byteIndex', n, p, i, data, mask, final)
      decreases n - i
    {
      row', more, bitIndex', byteIndex', g' :=
        MapRow(modules, g', p, i, col, data, mask, row', inc, bitIndex', byteIndex', final);
      i := i + 1;
    }
    NextPair(n, g', p, data, mask, final);
  }

  /** The pair that the column belongs to, past the timing column, and the column behind it. */
  method MapPair(modules: array2<Module>, ghost g: Grid, ghost p: nat, col: int, data: seq<nat>, mask: Mask, row: int,
                 inc: int, bitIndex: int, byteIndex: int, ghost final: Grid)
    returns (col': int, row': int, bitIndex': int, byteIndex': int, ghost g': Grid)
    requires IsSize(modules.Length0) && 2 * p <= modules.Length0 - 1 && 0 < col == ColumnAt(modules.Length0, p)
    requires Turn(modules.Length0, p, 0, row, inc)
    requires Placing(modules, g, bitIndex, byteIndex, modules.Length0, p, 0, data, mask, final)
    modifies modules
    ensures 2 * (p + 1) <= modules.Length0 - 1 && col' == ColumnAt(modules.Length0, p + 1)
    ensures Turn(modules.Length0, p + 1, 0, row', -inc)
    ensures Placing(modules, g', bitIndex', byteIndex', modules.Length0, p + 1, 0, data, mask, final)
  {
    NextColumn(modules.Length0, p);
    var right := if col == 6 then col - 1 else col;
    row', bitIndex', byteIndex', g' :=
      MapColumns(modules, g, p, right, data, mask, row, inc, bitIndex, byteIndex, final);
    col' := right - 2;
  }

  /** mapData: the whole walk, whatever was set before and whatever the mask. */
  method MapData(modules: array2<Module>, ghost cells: map<Cell, bool>, data: seq<nat>, mask: Mask)
    requires IsSize(modules.Length0) && Shows(modules, cells)
    modifies modules
    ensures Shows(modules, Walk(Grid(cells, 0), Path(modules.Length0, 0, 0), data, mask).cells)
  {
    var n := modules.Length0;
    var inc, row, bitIndex, byteIndex := -1, n - 1, 7, 0;
    var col := n - 1;
    ghost var g := Grid(cells, 0);
    ghost var final := Walk(g, Path(n, 0, 0), data, mask);
    ghost var p := 0;
    while col > 0
      invariant 0 <= 2 * p <= n - 1 && col == ColumnAt(n, p) && Turn(n, p, 0, row, inc)
      invariant Placing(modules, g, bitIndex, byteIndex, n, p, 0, data, mask, final)
    {
      col, row, bitIndex, byteIndex, g := MapPair(modules, g, p, col, data, mask, row, inc, bitIndex, byteIndex, final);
      inc := -inc;
      p := p + 1;
    }
    NextColumn(n, p);
    NoneRemains(n, g, p, data, mask, final);
  }

  // ---------- the function patterns ----------

  predicate IsDark(r: int, c: int) {
    (0 <= r <= 6 && (c == 0 || c == 6)) || (0 <= c <= 6 && (r == 0 || r == 6)) || (2 <= r <= 4 && 2 <= c <= 4)
  }

  /** The distance from the centre of a finder pattern. */
  function Ring(r: int, c: int): int {
    var y, x := if r < 3 then 3 - r else r - 3, if c < 3 then 3 - c else c - 3;
    if y < x then x else y
  }

  /** A dark square of three, a light ring, a dark ring, and light around it. */
  lemma FinderRings(r: int, c: int)
    ensures IsDark(r, c) <==> Ring(r, c) <= 1 || Ring(r, c) == 3
  {
  }

  /** A module after the finder pattern at (row, col) and its light border. */
  function Probed(row: int, col: int, was: Module, r: int, c: int): Module {
    if row - 1 <= r <= row + 7 && col - 1 <= c <= col + 7 then Some(IsDark(r - row, c - col)) else was
  }

  /** A module after the timing pattern, which sets what is still null between the finder patterns. */
  function Timed(n: int, was: Module, r: int, c: int): Module {
    if was != None then was
    else if c == 6 && 8 <= r < n - 8 then Some(r % 2 == 0)
    else if r == 6 && 8 <= c < n - 8 then Some(c % 2 == 0)
    else None
  }

  /** The timing pattern begins and ends dark and changes from module to module. */
  lemma TimingAlternates(n: int, i: int)
    requires IsSize(n) && 8 <= i < n - 8
    ensures Timed(n, None, 8, 6) == Timed(n, None, n - 9, 6) == Some(true)
    ensures Timed(n, None, i, 6).Some? && Timed(n, None, i, 6) == Timed(n, None, 6, i)
    ensures i + 1 < n - 8 ==> Timed(n, None, i + 1, 6) == Some(!Timed(n, None, i, 6).value)
  {
  }

  /** A module after further writes, in order. */
  function Rewritten(writes: seq<(Cell, bool)>, was: Module, r: int, c: int): Module {
    if |writes| == 0 then was
    else
      var last := writes[|writes| - 1];
      if last.0 == (r, c) then Some(last.1) else Rewritten(writes[..|writes| - 1], was, r, c)
  }

  /** What stands at a module before the data: finders, alignment writes, timing, type writes. */
  function PatternAt(n: int, align: seq<(Cell, bool)>, info: seq<(Cell, bool)>, r: int, c: int): Module {
    var probed := Probed(0, n - 7, Probed(n - 7, 0, Probed(0, 0, None, r, c), r, c), r, c);
    Rewritten(info, Timed(n, Rewritten(align, probed, r, c), r, c), r, c)
  }

  function Patterns(n: int, align: seq<(Cell, bool)>, info: seq<(Cell, bool)>): map<Cell, bool> {
    map r: int, c: int | 0 <= r < n && 0 <= c < n && PatternAt(n, align, info, r, c) != None ::
      (r, c) := PatternAt(n, align, info, r, c).value
  }

  lemma {:induction false} RewritesStay(writes: seq<(Cell, bool)>, was: Module, r: int, c: int)
    requires was != None
    ensures Rewritten(writes, was, r, c) != None
  {
    if |writes| > 0 {
      RewritesStay(writes[..|writes| - 1], was, r, c);
    }
  }

  /** The column the walk leaves out is full of patterns. */
  lemma ColumnSixSet(n: int, align: seq<(Cell, bool)>, info: seq<(Cell, bool)>, r: int)
    requires IsSize(n) && 0 <= r < n
    ensures (r, 6) in Patterns(n, align, info)
  {
    var probed := Probed(0, n - 7, Probed(n - 7, 0, Probed(0, 0, None, r, 6), r, 6), r, 6);
    var aligned := Rewritten(align, probed, r, 6);
    if !(8 <= r < n - 8) {
      RewritesStay(align, probed, r, 6);
    }
    RewritesStay(info, Timed(n, aligned, r, 6), r, 6);
  }

  ghost predicate Fits(modules: array2<Module>, r: int, c: int) {
    0 <= r < modules.Length0 && 0 <= c < modules.Length1
  }

  /** A finder pattern with its light border, as far as it lies on the grid. */
  method SetupProbe(modules: array2<Module>, row: int, col: int)
    requires modules.Length0 == modules.Length1
    modifies modules
    ensures forall r, c :: Fits(modules, r, c) ==> modules[r, c] == Probed(row, col, old(modules[r, c]), r, c)
  {
    var n := modules.Length0;
    var r := -1;
    while r <= 7
      invariant -1 <= r <= 8
      invariant forall i, j :: Fits(modules, i, j) ==>
                  modules[i, j] ==
                    if i < row + r then Probed(row, col, old(modules[i, j]), i, j)
                    else old(modules[i, j])
    {
      if !(row + r <= -1 || n <= row + r) {
        SetupProbeRow(modules, row, col, r);
      }
      r := r + 1;
    }
  }

  method SetupProbeRow(modules: array2<Module>, row: int, col: int, r: int)
    requires modules.Length0 == modules.Length1 && 0 <= row + r < modules.Length0
    modifies modules
    ensures forall i, j :: Fits(modules, i, j) ==>
              modules[i, j] ==
                if i == row + r && col - 1 <= j <= col + 7 then Some(IsDark(r, j - col))
                else old(modules[i, j])
  {
    var n := modules.Length0;
    var c := -1;
    while c <= 7
      invariant -1 <= c <= 8
      invariant forall i, j :: Fits(modules, i, j) ==>
                  modules[i, j] ==
                    if i == row + r && col - 1 <= j < col + c then Some(IsDark(r, j - col))
                    else old(modules[i, j])
    {
      if !(col + c <= -1 || n <= col + c) {
        modules[row + r, col + c] := Some(IsDark(r, c));
      }
      c := c + 1;
    }
  }

  /** The timing pattern sets what is still null in row and column 6 between the finder patterns. */
  method SetupTiming(modules: array2<Module>)
    requires modules.Length0 == modules.Length1 && IsSize(modules.Length0)
    modifies modules
    ensures forall r, c :: Fits(modules, r, c) ==> modules[r, c] == Timed(modules.Length0, old(modules[r, c]), r, c)
  {
    var n := modules.Length0;
    var r := 8;
    while r < n - 8
      invariant 8 <= r <= n - 8
      invariant forall i, j :: Fits(modules, i, j) ==>
                  modules[i, j] ==
                    if old(modules[i, j]) == None && j == 6 && 8 <= i < r then Some(i % 2 == 0)
                    else old(modules[i, j])
    {
      if modules[r, 6] == None {
        modules[r, 6] := Some(r % 2 == 0);
      }
      r := r + 1;
    }
    var c := 8;
    while c < n - 8
      invariant 8 <= c <= n - 8
      invariant forall i, j :: Fits(modules, i, j) ==>
                  modules[i, j] ==
                    if i == 6 && c <= j && j != 6 then old(modules[i, j])
                    else Timed(n, old(modules[i, j]), i, j)
    {
      if modules[6, c] == None {
        modules[6, c] := Some(c % 2 == 0);
      }
      c := c + 1;
    }
  }

  ghost predicate AllFit(n: int, writes: seq<(Cell, bool)>) {
    forall i :: 0 <= i < |writes| ==> 0 <= writes[i].0.0 < n && 0 <= writes[i].0.1 < n
  }

  /** Further function modules, such as the alignment and type patterns: later writes win. */
  method SetupOthers(modules: array2<Module>, writes: seq<(Cell, bool)>)
    requires modules.Length0 == modules.Length1 && AllFit(modules.Length0, writes)
    modifies modules
    ensures forall r, c :: Fits(modules, r, c) ==> modules[r, c] == Rewritten(writes, old(modules[r, c]), r, c)
  {
    var i := 0;
    while i < |writes|
      invariant i <= |writes|
      invariant forall r, c :: Fits(modules, r, c) ==> modules[r, c] == Rewritten(writes[..i], old(modules[r, c]), r, c)
    {
      modules[writes[i].0.0, writes[i].0.1] := Some(writes[i].1);
      i := i + 1;
      assert writes[..i][..i - 1] == writes[..i - 1];
    }
    assert writes[..i] == writes;
  }

  /** Everything before the data. */
  method SetupPatterns(modules: array2<Module>, align: seq<(Cell, bool)>, info: seq<(Cell, bool)>)
    requires modules.Length0 == modules.Length1 && IsSize(modules.Length0)
    requires AllFit(modules.Length0, align) && AllFit(modules.Length0, info)
    requires forall r, c :: Fits(modules, r, c) ==> modules[r, c] == None
    modifies modules
    ensures Shows(modules, Patterns(modules.Length0, align, info))
  {
    var n := modules.Length0;
    SetupProbe(modules, 0, 0);
    SetupProbe(modules, n - 7, 0);
    SetupProbe(modules, 0, n - 7);
    SetupOthers(modules, align);
    SetupTiming(modules);
    SetupOthers(modules, info);
    assert forall r, c :: Fits(modules, r, c) ==> modules[r, c] == PatternAt(n, align, info, r, c);
  }

  /** The set modules of an array, as a map. */
  ghost function CellsOf(modules: array2<Module>): map<Cell, bool>
    reads modules
  {
    map r: int, c: int | 0 <= r < modules.Length0 && 0 <= c < modules.Length1 && modules[r, c] != None ::
      (r, c) := modules[r, c].value
  }

  /** What a finished code shows: the patterns as they were, no module null, and the data behind the mask. */
  ghost predicate IsCode(n: int, patterns: map<Cell, bool>, cells: map<Cell, bool>, data: seq<nat>, mask: Mask)
    requires n > 0
  {
    var free := Free(patterns, Path(n, 0, 0));
    && (forall cell :: cell in patterns ==> cell in cells && cells[cell] == patterns[cell])
    && (forall r, c :: 0 <= r < n && 0 <= c < n ==> (r, c) in cells)
    && (forall cell :: cell in free <==> InGrid(n, cell) && cell !in patterns)
    && InOrder(n, free)
    && ReadBack(cells, free, mask) == seq(|free|, t requires 0 <= t < |free| => Bit(data, t))
  }

  lemma WalkIsCode(n: int, patterns: map<Cell, bool>, data: seq<nat>, mask: Mask)
    requires IsSize(n) && forall r :: 0 <= r < n ==> (r, 6) in patterns
    ensures IsCode(n, patterns, Walk(Grid(patterns, 0), Path(n, 0, 0), data, mask).cells, data, mask)
  {
    PlacedAndRead(n, patterns, data, mask);
    PathInOrder(n);
    FreeInOrder(n, patterns, Path(n, 0, 0));
    var cells := Walk(Grid(patterns, 0), Path(n, 0, 0), data, mask).cells;
    forall r, c | 0 <= r < n && 0 <= c < n
      ensures (r, c) in cells
    {
      if c == 6 { assert (r, 6) in patterns; } else { assert InGrid(n, (r, c)); }
    }
  }

  /** Byte k of the data stands in the free modules from 8 * k on, behind the mask. */
  lemma CodeBytes(n: int, patterns: map<Cell, bool>, cells: map<Cell, bool>, data: seq<nat>, mask: Mask, k: nat)
    requires n > 0 && IsCode(n, patterns, cells, data, mask) && k < |data| && data[k] < 256
    requires 8 * k + 8 <= |Free(patterns, Path(n, 0, 0))|
    ensures Number(ReadBack(cells, Free(patterns, Path(n, 0, 0)), mask)[8 * k..8 * k + 8]) == data[k]
  {
    var bits := ReadBack(cells, Free(patterns, Path(n, 0, 0)), mask);
    BitsByte(bits, data, k);
  }

  /** The whole code: the function modules stay, no module is left null, and the data can be read back. */
  method MakeImpl(n: int, align: seq<(Cell, bool)>, info: seq<(Cell, bool)>, data: seq<nat>, mask: Mask)
    returns (modules: array2<Module>)
    requires IsSize(n) && AllFit(n, align) && AllFit(n, info)
    ensures fresh(modules) && modules.Length0 == modules.Length1 == n
    ensures IsCode(n, Patterns(n, align, info), CellsOf(modules), data, mask)
  {
    modules := new Module[n, n]((_, _) => None);
    SetupPatterns(modules, align, info);
    ghost var patterns := Patterns(n, align, info);
    MapData(modules, patterns, data, mask);
    forall r | 0 <= r < n
      ensures (r, 6) in patterns
    {
      ColumnSixSet(n, align, info, r);
    }
    WalkIsCode(n, patterns, data, mask);
    ShownCells(modules, n, patterns, Walk(Grid(patterns, 0), Path(n, 0, 0), data, mask).cells, data, mask);
  }

  lemma ShownCells(modules: array2<Module>, n: int, patterns: map<Cell, bool>, cells: map<Cell, bool>, data: seq<nat>,
                   mask: Mask)
    requires IsSize(n) && n == modules.Length0 && Shows(modules, cells) && IsCode(n, patterns, cells, data, mask)
    requires forall cell :: cell in patterns ==> 0 <= cell.0 < n && 0 <= cell.1 < n
    ensures IsCode(n, patterns, CellsOf(modules), data, mask)
  {
    var shown := CellsOf(modules);
    forall r, c | 0 <= r < n && 0 <= c < n
      ensures (r, c) in shown && shown[(r, c)] == cells[(r, c)]
    {
      assert modules[r, c] == Some(cells[(r, c)]);
    }
    var free := Free(patterns, Path(n, 0, 0));
    forall t | 0 <= t < |free|
      ensures ReadBack(shown, free, mask)[t] == ReadBack(cells, free, mask)[t]
    {
      assert free[t] in free;
    }
    assert ReadBack(shown, free, mask) == ReadBack(cells, free, mask);
  }
}
