/**
 * placeData of the QR generator: the data bits go, in zig-zag order, into
 * the cells that are still null. Column pairs run from the right edge to the
 * left, column 6 (the vertical timing pattern) is stepped over, and the
 * direction alternates between upwards and downwards from pair to pair.
 * Null cells left over once the data is used up become light.
 */
module QrPlacement {
  import opened Wrappers
  import opened JsPrims
  import opened QrMatrix

  type Pos = (int, int)

  /** A size x size grid of cells: the contents of the matrix at some moment. */
  predicate IsGrid(g: seq<seq<Cell>>, size: int) {
    |g| == size && forall r :: 0 <= r < size ==> |g[r]| == size
  }

  ghost function Snapshot(m: array2<Cell>): (g: seq<seq<Cell>>)
    reads m
    ensures |g| == m.Length0 && forall r :: 0 <= r < m.Length0 ==> |g[r]| == m.Length1
    ensures forall r, c :: 0 <= r < m.Length0 && 0 <= c < m.Length1 ==> g[r][c] == m[r, c]
  {
    seq(m.Length0, r requires 0 <= r < m.Length0 reads m => seq(m.Length1, c requires 0 <= c < m.Length1 reads m => m[r, c]))
  }

  // ---------------------------------------------------------------------
  // The visiting order

  /** The row visited at step `count` of a column pair going up (from the bottom) or down. */
  function RowAt(count: int, up: bool, size: int): int {
    if up then size - 1 - count else count
  }

  /** The cells of one column pair: for each row in turn, the right column then the left. */
  function PairCells(col: int, up: bool, size: nat): (s: seq<Pos>)
    ensures |s| == 2 * size
  {
    seq(2 * size, t requires 0 <= t < 2 * size => (RowAt(t / 2, up, size), col - t % 2))
  }

  /** The column the pair starting at col really uses: column 6 is replaced by 5. */
  function PairColumn(col: int): int {
    if col == 6 then 5 else col
  }

  /** The cells visited from the pair at col leftwards, starting in direction up. */
  function ZigZagFrom(col: int, up: bool, size: nat): seq<Pos>
    decreases col
  {
    if col <= 0 then [] else PairCells(PairColumn(col), up, size) + ZigZagFrom(PairColumn(col) - 2, !up, size)
  }

  /** The same order with the pairs already visited in front: what the loop of placeData walks through. */
  function ZigZagAcc(visited: seq<Pos>, col: int, up: bool, size: nat): seq<Pos>
    decreases col
  {
    if col <= 0 then visited else ZigZagAcc(visited + PairCells(PairColumn(col), up, size), PairColumn(col) - 2, !up, size)
  }

  lemma {:induction false} ZigZagAccFrom(visited: seq<Pos>, col: int, up: bool, size: nat)
    ensures ZigZagAcc(visited, col, up, size) == visited + ZigZagFrom(col, up, size)
    decreases col
  {
    if col <= 0 {
      assert visited + [] == visited;
    } else {
      var c := PairColumn(col);
      ZigZagAccFrom(visited + PairCells(c, up, size), c - 2, !up, size);
    }
  }

  /** The whole order of placeData for a size x size matrix. */
  function ZigZag(size: nat): seq<Pos> {
    ZigZagFrom(size - 1, true, size)
  }

  lemma ZigZagAccStart(size: nat)
    ensures ZigZagAcc([], size - 1, true, size) == ZigZag(size)
  {
    ZigZagAccFrom([], size - 1, true, size);
    assert [] + ZigZag(size) == ZigZag(size);
  }

  predicate Distinct(s: seq<Pos>) {
    forall i, j :: 0 <= i < j < |s| ==> s[i] != s[j]
  }

  lemma PairCellsShape(col: int, up: bool, size: nat, t: int)
    requires 0 <= t < 2 * size
    ensures 0 <= PairCells(col, up, size)[t].0 < size
    ensures PairCells(col, up, size)[t].1 == col || PairCells(col, up, size)[t].1 == col - 1
  {
  }

  lemma PairCellsDistinct(col: int, up: bool, size: nat)
    ensures Distinct(PairCells(col, up, size))
  {
    var s := PairCells(col, up, size);
    forall i, j | 0 <= i < j < |s|
      ensures s[i] != s[j]
    {
      if i / 2 == j / 2 {
        assert i % 2 != j % 2;
      } else {
        assert RowAt(i / 2, up, size) != RowAt(j / 2, up, size);
      }
    }
  }

  /** Every visited cell lies inside the matrix, at or left of the starting column. */
  lemma {:induction false} ZigZagInBounds(col: int, up: bool, size: nat)
    ensures forall p :: p in ZigZagFrom(col, up, size) ==> 0 <= p.0 < size && 0 <= p.1 <= col
    decreases col
  {
    if col > 0 {
      var c := PairColumn(col);
      ZigZagInBounds(c - 2, !up, size);
      forall p | p in PairCells(c, up, size)
        ensures 0 <= p.0 < size && 0 <= p.1 <= col
      {
        var t :| 0 <= t < 2 * size && PairCells(c, up, size)[t] == p;
        PairCellsShape(c, up, size, t);
      }
    }
  }

  lemma DistinctNotBefore(s: seq<Pos>, j: int)
    requires Distinct(s) && 0 <= j < |s|
    ensures s[j] !in s[..j]
  {
    forall i | 0 <= i < j
      ensures s[..j][i] != s[j]
    {
      assert s[..j][i] == s[i];
    }
  }

  lemma DistinctAppend(a: seq<Pos>, b: seq<Pos>)
    requires Distinct(a) && Distinct(b)
    requires forall p :: p in a ==> p !in b
    ensures Distinct(a + b)
  {
    var s := a + b;
    forall i, j | 0 <= i < j < |s|
      ensures s[i] != s[j]
    {
      if i < |a| && j >= |a| {
        assert s[i] in a && s[j] in b;
      }
    }
  }

  /** No cell is visited twice. */
  lemma {:induction false} ZigZagDistinct(col: int, up: bool, size: nat)
    ensures Distinct(ZigZagFrom(col, up, size))
    decreases col
  {
    if col > 0 {
      var c := PairColumn(col);
      var pairs := PairCells(c, up, size);
      var rest := ZigZagFrom(c - 2, !up, size);
      assert ZigZagFrom(col, up, size) == pairs + rest;
      PairCellsDistinct(c, up, size);
      ZigZagDistinct(c - 2, !up, size);
      ZigZagInBounds(c - 2, !up, size);
      forall p | p in pairs
        ensures p !in rest
      {
        var t :| 0 <= t < 2 * size && pairs[t] == p;
        PairCellsShape(c, up, size, t);
      }
      DistinctAppend(pairs, rest);
    }
  }

  lemma PairCellsCover(col: int, up: bool, size: nat, r: int, c: int)
    requires 0 <= r < size && (c == col || c == col - 1)
    ensures (r, c) in PairCells(col, up, size)
  {
    var count := if up then size - 1 - r else r;
    var t := 2 * count + (col - c);
    assert PairCells(col, up, size)[t] == (r, c);
  }

  /**
   * Starting from an even column of 6 or more, or an odd column below 6,
   * every cell at or left of the starting column is visited except those of
   * column 6. For the odd symbol sizes 21..33 the order starts at the even
   * column size - 1, so it covers the whole matrix but column 6.
   */
  lemma {:induction false} ZigZagCovers(col: int, up: bool, size: nat, r: int, c: int)
    requires (col >= 6 && col % 2 == 0) || (col < 6 && col % 2 == 1)
    requires 0 <= r < size && 0 <= c <= col && c != 6
    ensures (r, c) in ZigZagFrom(col, up, size)
    decreases col
  {
    var pc := PairColumn(col);
    assert ZigZagFrom(col, up, size) == PairCells(pc, up, size) + ZigZagFrom(pc - 2, !up, size);
    if c == pc || c == pc - 1 {
      PairCellsCover(pc, up, size, r, c);
    } else {
      assert c <= pc - 2;
      assert (pc - 2 >= 6 && (pc - 2) % 2 == 0) || (pc - 2 < 6 && (pc - 2) % 2 == 1);
      ZigZagCovers(pc - 2, !up, size, r, c);
    }
  }

  // ---------------------------------------------------------------------
  // What the placement leaves in each cell

  predicate NullAt(g: seq<seq<Cell>>, p: Pos) {
    0 <= p.0 < |g| && 0 <= p.1 < |g[p.0]| && g[p.0][p.1] == Null
  }

  /** How many of the cells of s are null in g. */
  function NullCount(g: seq<seq<Cell>>, s: seq<Pos>): nat {
    if s == [] then 0 else NullCount(g, s[..|s| - 1]) + (if NullAt(g, s[|s| - 1]) then 1 else 0)
  }

  /** Where p first occurs in s. */
  function IndexOf(s: seq<Pos>, p: Pos): (r: Option<nat>)
    ensures r.Some? ==> r.value < |s| && s[r.value] == p
  {
    if s == [] then None
    else match IndexOf(s[..|s| - 1], p)
      case Some(i) => Some(i)
      case None => if s[|s| - 1] == p then Some(|s| - 1) else None
  }

  /** The k-th data bit, or light once the data is used up. */
  function DataOrFalse(data: seq<bool>, k: nat): bool {
    if k < |data| then data[k] else false
  }

  /**
   * The cell (r, c) after visiting the cells of order, starting from grid g:
   * a non-null cell is kept; a null cell that is the k-th null cell of the
   * order receives data bit k (light past the end of the data); a null cell
   * the order does not reach stays null.
   */
  function Placed(g: seq<seq<Cell>>, data: seq<bool>, order: seq<Pos>, r: int, c: int): Cell
    requires 0 <= r < |g| && 0 <= c < |g[r]|
  {
    if g[r][c] != Null then g[r][c]
    else match IndexOf(order, (r, c))
      case None => Null
      case Some(i) => Filled(DataOrFalse(data, NullCount(g, order[..i])))
  }

  /** IndexOf finds p exactly when p occurs, and finds its first occurrence. */
  lemma {:induction false} IndexOfFirst(s: seq<Pos>, p: Pos)
    ensures IndexOf(s, p).None? <==> p !in s
    ensures IndexOf(s, p).Some? ==> p !in s[..IndexOf(s, p).value]
    decreases |s|
  {
    if s != [] {
      var n := |s| - 1;
      IndexOfFirst(s[..n], p);
      assert s == s[..n] + [s[n]];
      match IndexOf(s[..n], p)
      case Some(i) =>
        assert s[..n][..i] == s[..i];
      case None =>
    }
  }

  lemma IndexOfAppend(s: seq<Pos>, p: Pos, q: Pos)
    ensures IndexOf(s + [p], q) == if IndexOf(s, q).Some? then IndexOf(s, q) else if p == q then Some(|s|) else None
  {
    assert (s + [p])[..|s|] == s;
  }

  /** Visiting one more cell p (not visited before) changes p alone. */
  lemma PlacedStep(g: seq<seq<Cell>>, data: seq<bool>, order: seq<Pos>, p: Pos, r: int, c: int)
    requires 0 <= r < |g| && 0 <= c < |g[r]| && p !in order
    ensures Placed(g, data, order + [p], r, c) ==
              if (r, c) == p && g[r][c] == Null then Filled(DataOrFalse(data, NullCount(g, order)))
              else Placed(g, data, order, r, c)
  {
    IndexOfAppend(order, p, (r, c));
    assert (order + [p])[..|order|] == order;
    var i := IndexOf(order, (r, c));
    if i.Some? {
      assert (order + [p])[..i.value] == order[..i.value];
    }
  }

  // ---------------------------------------------------------------------
  // Reading the data back

  /** The null cells of g, in the order s visits them. */
  function NullCells(g: seq<seq<Cell>>, s: seq<Pos>): (r: seq<Pos>)
    ensures |r| == NullCount(g, s)
  {
    if s == [] then [] else NullCells(g, s[..|s| - 1]) + (if NullAt(g, s[|s| - 1]) then [s[|s| - 1]] else [])
  }

  lemma {:induction false} NullCellsMembers(g: seq<seq<Cell>>, s: seq<Pos>, k: nat)
    requires k < |NullCells(g, s)|
    ensures NullAt(g, NullCells(g, s)[k]) && NullCells(g, s)[k] in s
    decreases |s|
  {
    var n := |s| - 1;
    if k < |NullCells(g, s[..n])| {
      NullCellsMembers(g, s[..n], k);
      assert NullCells(g, s)[k] == NullCells(g, s[..n])[k];
    }
  }

  /**
   * The placement read back along the null cells of the order gives the
   * data, cut to the number of null cells and followed by light modules
   * when there are more null cells than data bits.
   */
  lemma {:induction false} PlacedReadBack(g: seq<seq<Cell>>, data: seq<bool>, order: seq<Pos>, k: nat)
    requires Distinct(order) && k < NullCount(g, order)
    ensures var p := NullCells(g, order)[k];
            0 <= p.0 < |g| && 0 <= p.1 < |g[p.0]| && Placed(g, data, order, p.0, p.1) == Filled(DataOrFalse(data, k))
    decreases |order|
  {
    var n := |order| - 1;
    var prefix := order[..n];
    var last := order[n];
    assert order == prefix + [last];
    assert Distinct(prefix);
    assert last !in prefix;
    NullCellsMembers(g, order, k);
    var p := NullCells(g, order)[k];
    PlacedStep(g, data, prefix, last, p.0, p.1);
    if k < NullCount(g, prefix) {
      PlacedReadBack(g, data, prefix, k);
      assert NullCells(g, order)[k] == NullCells(g, prefix)[k];
      NullCellsMembers(g, prefix, k);
    } else {
      assert p == last;
    }
  }

  /** Every null cell the order reaches is filled, and every cell it does not reach keeps its value. */
  lemma PlacedFills(g: seq<seq<Cell>>, data: seq<bool>, order: seq<Pos>, r: int, c: int)
    requires 0 <= r < |g| && 0 <= c < |g[r]|
    ensures (r, c) in order ==> Placed(g, data, order, r, c) != Null
    ensures (r, c) !in order ==> Placed(g, data, order, r, c) == g[r][c]
    ensures g[r][c] != Null ==> Placed(g, data, order, r, c) == g[r][c]
  {
    IndexOfFirst(order, (r, c));
  }

  // ---------------------------------------------------------------------
  // The steps of placeData, one visit at a time

  /** The matrix and the index of the next data bit while placeData runs. */
  datatype Progress = Progress(grid: seq<seq<Cell>>, dataIndex: nat)

  /** One visit: a null cell takes the next data bit, or light once the data is used up. */
  function Visit(s: Progress, data: seq<bool>, p: Pos): Progress {
    if 0 <= p.0 < |s.grid| && 0 <= p.1 < |s.grid[p.0]| && s.grid[p.0][p.1] == Null then
      if s.dataIndex < |data| then
        Progress(s.grid[p.0 := s.grid[p.0][p.1 := Filled(data[s.dataIndex])]], s.dataIndex + 1)
      else
        Progress(s.grid[p.0 := s.grid[p.0][p.1 := Filled(false)]], s.dataIndex)
    else s
  }

  /** The visits of order in turn, starting from grid g with no data used. */
  function Run(g: seq<seq<Cell>>, data: seq<bool>, order: seq<Pos>): Progress {
    if order == [] then Progress(g, 0) else Visit(Run(g, data, order[..|order| - 1]), data, order[|order| - 1])
  }

  /** The visits keep the shape of the grid. */
  lemma {:induction false} RunShape(g: seq<seq<Cell>>, size: int, data: seq<bool>, order: seq<Pos>)
    requires IsGrid(g, size)
    ensures IsGrid(Run(g, data, order).grid, size)
    decreases |order|
  {
    if order != [] {
      RunShape(g, size, data, order[..|order| - 1]);
    }
  }

  lemma RunAppend(g: seq<seq<Cell>>, data: seq<bool>, order: seq<Pos>, p: Pos)
    ensures Run(g, data, order + [p]) == Visit(Run(g, data, order), data, p)
  {
    assert (order + [p])[..|order|] == order;
  }

  /**
   * Visiting distinct cells one at a time leaves exactly what Placed
   * describes, and the data index counts the null cells met, up to the
   * length of the data.
   */
  lemma {:induction false} RunIsPlaced(g: seq<seq<Cell>>, size: int, data: seq<bool>, order: seq<Pos>)
    requires IsGrid(g, size) && Distinct(order)
    ensures IsGrid(Run(g, data, order).grid, size)
    ensures Run(g, data, order).dataIndex == Min(NullCount(g, order), |data|)
    ensures forall r, c :: 0 <= r < size && 0 <= c < size ==> Run(g, data, order).grid[r][c] == Placed(g, data, order, r, c)
    decreases |order|
  {
    RunShape(g, size, data, order);
    if order == [] {
      forall r, c | 0 <= r < size && 0 <= c < size
        ensures Run(g, data, order).grid[r][c] == Placed(g, data, order, r, c)
      {
        IndexOfFirst(order, (r, c));
      }
    } else {
      var n := |order| - 1;
      var prefix := order[..n];
      var p := order[n];
      assert order == prefix + [p];
      DistinctPrefix(prefix, [p]);
      DistinctNotBefore(order, n);
      RunIsPlaced(g, size, data, prefix);
      var s := Run(g, data, prefix);
      if 0 <= p.0 < size && 0 <= p.1 < size {
        PlacedStepAll(g, size, data, prefix, p);
      } else {
        forall r, c | 0 <= r < size && 0 <= c < size
          ensures Run(g, data, order).grid[r][c] == Placed(g, data, order, r, c)
        {
          PlacedStep(g, data, prefix, p, r, c);
        }
      }
    }
  }

  /** Running the whole zig-zag order gives Placed, cell by cell. */
  lemma RunZigZag(g: seq<seq<Cell>>, size: int, data: seq<bool>)
    requires IsGrid(g, size) && size >= 1
    ensures IsGrid(Run(g, data, ZigZag(size)).grid, size)
    ensures forall r, c :: 0 <= r < size && 0 <= c < size ==> Run(g, data, ZigZag(size)).grid[r][c] == Placed(g, data, ZigZag(size), r, c)
  {
    ZigZagDistinct(size - 1, true, size);
    RunIsPlaced(g, size, data, ZigZag(size));
  }

  // ---------------------------------------------------------------------
  // The loop

  /** m holds grid h. */
  ghost predicate Holds(m: array2<Cell>, h: seq<seq<Cell>>)
    reads m
  {
    IsGrid(h, m.Length0) && m.Length1 == m.Length0
    && forall r, c :: 0 <= r < m.Length0 && 0 <= c < m.Length1 ==> m[r, c] == h[r][c]
  }

  /** placeData, writing the cells of m in place. */
  method PlaceData(m: array2<Cell>, data: seq<bool>, size: int)
    requires m.Length0 == size && m.Length1 == size && size >= 1
    modifies m
    ensures forall r, c :: 0 <= r < size && 0 <= c < size ==> m[r, c] == Placed(old(Snapshot(m)), data, ZigZag(size), r, c)
  {
    ghost var g := Snapshot(m);
    PlaceColumns(m, data, size, g);
    RunZigZag(g, size, data);
  }

  /** The loop of placeData over the column pairs, right to left, alternating direction. */
  method PlaceColumns(m: array2<Cell>, data: seq<bool>, size: int, ghost g: seq<seq<Cell>>)
    requires m.Length0 == size && m.Length1 == size && size >= 1
    requires Holds(m, g)
    modifies m
    ensures Holds(m, Run(g, data, ZigZag(size)).grid)
  {
    ghost var visited: seq<Pos> := [];
    ZigZagAccStart(size);
    var dataIndex := 0;
    var up := true;
    var col := size - 1;
    while col > 0
      invariant ZigZagAcc(visited, col, up, size) == ZigZag(size)
      invariant Holds(m, Run(g, data, visited).grid) && dataIndex == Run(g, data, visited).dataIndex
      decreases col
    {
      ghost var pairs := visited + PairCells(PairColumn(col), up, size);
      col, dataIndex := PlaceColumn(m, data, size, g, visited, col, up, dataIndex);
      visited := pairs;
      up := !up;
    }
  }

  /**
   * One turn of the loop of placeData: column 6 is skipped in favour of 5,
   * the pair is filled, and the column two to the left is returned.
   */
  method PlaceColumn(m: array2<Cell>, data: seq<bool>, size: int, ghost g: seq<seq<Cell>>,
                     ghost visited: seq<Pos>, col: int, up: bool, dataIndex: int)
    returns (col': int, next: int)
    requires m.Length0 == size && m.Length1 == size && IsGrid(g, size)
    requires Holds(m, Run(g, data, visited).grid) && dataIndex == Run(g, data, visited).dataIndex
    modifies m
    ensures col' == PairColumn(col) - 2
    ensures var after := visited + PairCells(PairColumn(col), up, size);
      Holds(m, Run(g, data, after).grid) && next == Run(g, data, after).dataIndex
  {
    col' := col;
    if col' == 6 {
      col' := col' - 1;
    }
    next := PlacePair(m, data, size, g, visited, col', up, dataIndex);
    col' := col' - 2;
  }

  lemma DistinctPrefix(a: seq<Pos>, b: seq<Pos>)
    requires Distinct(a + b)
    ensures Distinct(a)
  {
    forall i, j | 0 <= i < j < |a|
      ensures a[i] != a[j]
    {
      assert (a + b)[i] == a[i] && (a + b)[j] == a[j];
    }
  }

  /** One column pair of placeData: the rows in turn, upwards or downwards. */
  method PlacePair(m: array2<Cell>, data: seq<bool>, size: int, ghost g: seq<seq<Cell>>,
                   ghost start: seq<Pos>, col: int, up: bool, dataIndex: int)
    returns (next: int)
    requires m.Length0 == size && m.Length1 == size && IsGrid(g, size)
    requires Holds(m, Run(g, data, start).grid) && dataIndex == Run(g, data, start).dataIndex
    modifies m
    ensures Holds(m, Run(g, data, start + PairCells(col, up, size)).grid)
    ensures next == Run(g, data, start + PairCells(col, up, size)).dataIndex
  {
    ghost var visited := start;
    assert start + PairCells(col, up, size)[..0] == visited;
    next := dataIndex;
    var count := 0;
    while count < size
      invariant 0 <= count <= size
      invariant visited == start + PairCells(col, up, size)[..2 * count]
      invariant Holds(m, Run(g, data, visited).grid) && next == Run(g, data, visited).dataIndex
    {
      var row := if up then size - 1 - count else count;
      next := PlaceRow(m, data, size, g, start, visited, col, up, count, row, next);
      visited := start + PairCells(col, up, size)[..2 * count + 2];
      count := count + 1;
    }
    assert PairCells(col, up, size)[..2 * size] == PairCells(col, up, size);
  }

  /** One row of a column pair: the right column, then the left one. */
  method PlaceRow(m: array2<Cell>, data: seq<bool>, size: int, ghost g: seq<seq<Cell>>,
                  ghost start: seq<Pos>, ghost before: seq<Pos>, col: int, up: bool, count: int, row: int, dataIndex: int)
    returns (next: int)
    requires m.Length0 == size && m.Length1 == size && IsGrid(g, size)
    requires 0 <= count < size && row == RowAt(count, up, size)
    requires before == start + PairCells(col, up, size)[..2 * count]
    requires Holds(m, Run(g, data, before).grid) && dataIndex == Run(g, data, before).dataIndex
    modifies m
    ensures Holds(m, Run(g, data, start + PairCells(col, up, size)[..2 * count + 2]).grid)
    ensures next == Run(g, data, start + PairCells(col, up, size)[..2 * count + 2]).dataIndex
  {
    ghost var visited := before;
    next := dataIndex;
    var c := 0;
    while c < 2
      invariant 0 <= c <= 2
      invariant visited == start + PairCells(col, up, size)[..2 * count + c]
      invariant Holds(m, Run(g, data, visited).grid) && next == Run(g, data, visited).dataIndex
    {
      var currentCol := col - c;
      next := RowTurn(m, data, size, g, start, visited, col, up, count, c, row, currentCol, next);
      visited := start + PairCells(col, up, size)[..2 * count + c + 1];
      c := c + 1;
    }
  }

  /** One turn of the loop of PlaceRow: the cell (row, currentCol) is visited. */
  method RowTurn(m: array2<Cell>, data: seq<bool>, size: int, ghost g: seq<seq<Cell>>,
                 ghost start: seq<Pos>, ghost visited: seq<Pos>, col: int, up: bool, count: int, c: int,
                 row: int, currentCol: int, dataIndex: int)
    returns (next: int)
    requires size >= 0 && 0 <= count < size && 0 <= c < 2
    requires row == RowAt(count, up, size) && currentCol == col - c
    requires visited == start + PairCells(col, up, size)[..2 * count + c]
    requires Holds(m, Run(g, data, visited).grid) && dataIndex == Run(g, data, visited).dataIndex
    modifies m
    ensures var after := start + PairCells(col, up, size)[..2 * count + c + 1];
      Holds(m, Run(g, data, after).grid) && next == Run(g, data, after).dataIndex
  {
    RowStep(g, data, start, visited, col, up, size, count, c);
    next := VisitCell(m, data, Run(g, data, visited), row, currentCol, dataIndex);
  }

  /** The bookkeeping of one turn of the loop of PlaceRow. */
  lemma RowStep(g: seq<seq<Cell>>, data: seq<bool>, start: seq<Pos>, visited: seq<Pos>,
                col: int, up: bool, size: nat, count: int, c: int)
    requires 0 <= count < size && 0 <= c < 2
    requires visited == start + PairCells(col, up, size)[..2 * count + c]
    ensures var p := (RowAt(count, up, size), col - c);
            && visited + [p] == start + PairCells(col, up, size)[..2 * count + c + 1]
            && Run(g, data, visited + [p]) == Visit(Run(g, data, visited), data, p)
  {
    var p := (RowAt(count, up, size), col - c);
    PairCellAt(col, up, size, count, c);
    ExtendPrefix(start, PairCells(col, up, size), 2 * count + c);
    RunAppend(g, data, visited, p);
  }

  /** One visit of placeData on the matrix itself. */
  method VisitCell(m: array2<Cell>, data: seq<bool>, ghost s: Progress, row: int, col: int, dataIndex: int)
    returns (next: int)
    requires Holds(m, s.grid) && dataIndex == s.dataIndex
    modifies m
    ensures Holds(m, Visit(s, data, (row, col)).grid) && next == Visit(s, data, (row, col)).dataIndex
  {
    next := dataIndex;
    if 0 <= row < m.Length0 && 0 <= col < m.Length1 && m[row, col] == Null {
      if next < |data| {
        m[row, col] := Filled(data[next]);
        next := next + 1;
      } else {
        m[row, col] := Filled(false);
      }
    }
  }

  lemma HalfOfPairIndex(count: int, c: int)
    requires 0 <= count && 0 <= c < 2
    ensures (2 * count + c) / 2 == count && (2 * count + c) % 2 == c
  {
  }

  /** Step 2 * count + c of a column pair visits row RowAt(count) of column col - c. */
  lemma PairCellAt(col: int, up: bool, size: nat, count: int, c: int)
    requires 0 <= count < size && 0 <= c < 2
    ensures PairCells(col, up, size)[2 * count + c] == (RowAt(count, up, size), col - c)
  {
    HalfOfPairIndex(count, c);
  }

  lemma ExtendPrefix(start: seq<Pos>, s: seq<Pos>, k: int)
    requires 0 <= k < |s|
    ensures start + s[..k] + [s[k]] == start + s[..k + 1]
  {
    assert s[..k + 1] == s[..k] + [s[k]];
  }

  /** Visiting one more, unvisited cell p: p alone changes, and the null count grows when p is null. */
  lemma PlacedStepAll(g: seq<seq<Cell>>, size: int, data: seq<bool>, visited: seq<Pos>, p: Pos)
    requires IsGrid(g, size) && 0 <= p.0 < size && 0 <= p.1 < size && p !in visited
    ensures Placed(g, data, visited, p.0, p.1) == g[p.0][p.1]
    ensures NullCount(g, visited + [p]) == NullCount(g, visited) + (if g[p.0][p.1] == Null then 1 else 0)
    ensures forall r, cc :: 0 <= r < size && 0 <= cc < size ==>
              Placed(g, data, visited + [p], r, cc) ==
                if (r, cc) == p && g[r][cc] == Null then Filled(DataOrFalse(data, NullCount(g, visited)))
                else Placed(g, data, visited, r, cc)
  {
    IndexOfFirst(visited, p);
    assert (visited + [p])[..|visited|] == visited;
    forall r, cc | 0 <= r < size && 0 <= cc < size
      ensures Placed(g, data, visited + [p], r, cc) ==
                if (r, cc) == p && g[r][cc] == Null then Filled(DataOrFalse(data, NullCount(g, visited)))
                else Placed(g, data, visited, r, cc)
    {
      PlacedStep(g, data, visited, p, r, cc);
    }
  }
}
