/**
 * The QR generator's module matrix and the helpers that write fixed patterns
 * into it in place: finder patterns, separators and timing patterns, the
 * reserved-area test and masking. A cell is `null` until something is
 * written to it, then a module colour (true = dark).
 */
module QrMatrix {

  datatype Cell = Null | Filled(dark: bool)

  /** The 7x7 finder pattern of addFinderPattern, 1 = dark. */
  const FinderPattern: seq<seq<int>> := [
    [1, 1, 1, 1, 1, 1, 1],
    [1, 0, 0, 0, 0, 0, 1],
    [1, 0, 1, 1, 1, 0, 1],
    [1, 0, 1, 1, 1, 0, 1],
    [1, 0, 1, 1, 1, 0, 1],
    [1, 0, 0, 0, 0, 0, 1],
    [1, 1, 1, 1, 1, 1, 1]
  ]

  /** The colour addFinderPattern writes at offset (dr, dc) of the pattern. */
  function FinderDark(dr: int, dc: int): bool
    requires 0 <= dr < 7 && 0 <= dc < 7
  {
    FinderPattern[dr][dc] == 1
  }

  /** The pattern is a dark 7x7 ring, a light 5x5 ring and a dark 3x3 core. */
  lemma FinderRings(dr: int, dc: int)
    requires 0 <= dr < 7 && 0 <= dc < 7
    ensures FinderDark(dr, dc) <==> (dr == 0 || dr == 6 || dc == 0 || dc == 6 || (2 <= dr <= 4 && 2 <= dc <= 4))
  {
  }

  /** Cell (r, c) lies in the 7x7 square whose top-left corner is (r0, c0). */
  predicate InSquare(r0: int, c0: int, r: int, c: int) {
    r0 <= r < r0 + 7 && c0 <= c < c0 + 7
  }

  /** addFinderPattern: the pattern at (startRow, startCol), clipped to the matrix. */
  method AddFinderPattern(m: array2<Cell>, startRow: nat, startCol: nat)
    modifies m
    ensures forall r, c :: 0 <= r < m.Length0 && 0 <= c < m.Length1 ==>
              m[r, c] == if InSquare(startRow, startCol, r, c) then Filled(FinderDark(r - startRow, c - startCol)) else old(m[r, c])
  {
    var row := 0;
    while row < 7
      invariant 0 <= row <= 7
      invariant forall r, c :: 0 <= r < m.Length0 && 0 <= c < m.Length1 ==>
                  m[r, c] == if InSquare(startRow, startCol, r, c) && r < startRow + row then Filled(FinderDark(r - startRow, c - startCol)) else old(m[r, c])
    {
      var col := 0;
      while col < 7
        invariant 0 <= col <= 7
        invariant forall r, c :: 0 <= r < m.Length0 && 0 <= c < m.Length1 ==>
                    m[r, c] == if InSquare(startRow, startCol, r, c) && (r < startRow + row || (r == startRow + row && c < startCol + col))
                               then Filled(FinderDark(r - startRow, c - startCol)) else old(m[r, c])
      {
        if startRow + row < m.Length0 && startCol + col < m.Length1 {
          m[startRow + row, startCol + col] := Filled(FinderPattern[row][col] == 1);
        }
        col := col + 1;
      }
      row := row + 1;
    }
  }

  /** The cells addSeparators sets light: the L-shaped borders inside the three finder corners. */
  predicate SeparatorCell(r: int, c: int, size: int) {
    || (r == 7 && 0 <= c < 8) || (c == 7 && 0 <= r < 8)
    || (r == 7 && size - 8 <= c < size) || (c == size - 8 && 0 <= r < 8)
    || (c == 7 && size - 8 <= r < size) || (r == size - 8 && 0 <= c < 8)
  }

  /** addSeparators. The source indexes rows 7 and size - 8 unguarded, so it needs size >= 8. */
  method AddSeparators(m: array2<Cell>, size: int)
    requires m.Length0 == size && m.Length1 == size && size >= 8
    modifies m
    ensures forall r, c :: 0 <= r < size && 0 <= c < size ==>
              m[r, c] == if SeparatorCell(r, c, size) then Filled(false) else old(m[r, c])
  {
    // top-left
    var i := 0;
    while i < 8
      invariant 0 <= i <= 8
      invariant forall r, c :: 0 <= r < size && 0 <= c < size ==>
                  m[r, c] == if (r == 7 && c < i) || (c == 7 && r < i) then Filled(false) else old(m[r, c])
    {
      if i < size { m[7, i] := Filled(false); }
      if i < size { m[i, 7] := Filled(false); }
      i := i + 1;
    }
    // top-right
    i := 0;
    while i < 8
      invariant 0 <= i <= 8
      invariant forall r, c :: 0 <= r < size && 0 <= c < size ==>
                  m[r, c] == if (r == 7 && c < 8) || (c == 7 && r < 8) || (r == 7 && size - 8 <= c < size - 8 + i) || (c == size - 8 && r < i)
                             then Filled(false) else old(m[r, c])
    {
      if size - 8 + i >= 0 { m[7, size - 8 + i] := Filled(false); }
      if i < size { m[i, size - 8] := Filled(false); }
      i := i + 1;
    }
    // bottom-left
    i := 0;
    while i < 8
      invariant 0 <= i <= 8
      invariant forall r, c :: 0 <= r < size && 0 <= c < size ==>
                  m[r, c] == if (r == 7 && c < 8) || (c == 7 && r < 8) || (r == 7 && size - 8 <= c) || (c == size - 8 && r < 8)
                                || (c == 7 && size - 8 <= r < size - 8 + i) || (r == size - 8 && c < i)
                             then Filled(false) else old(m[r, c])
    {
      if size - 8 + i >= 0 { m[size - 8 + i, 7] := Filled(false); }
      if i < size { m[size - 8, i] := Filled(false); }
      i := i + 1;
    }
  }

  /** The cells addTimingPatterns writes: row 6 and column 6 between the separators. */
  predicate TimingCell(r: int, c: int, size: int) {
    (r == 6 && 8 <= c < size - 8) || (c == 6 && 8 <= r < size - 8)
  }

  /** addTimingPatterns: alternating modules, dark at even positions. */
  method AddTimingPatterns(m: array2<Cell>, size: int)
    requires m.Length0 == size && m.Length1 == size && size >= 7
    modifies m
    ensures forall r, c :: 0 <= r < size && 0 <= c < size ==>
              m[r, c] == if TimingCell(r, c, size) then Filled((r + c) % 2 == 0) else old(m[r, c])
  {
    var i := 8;
    while i < size - 8
      invariant 8 <= i
      invariant i <= size - 8 || i == 8
      invariant forall r, c :: 0 <= r < size && 0 <= c < size ==>
                  m[r, c] == if (r == 6 && 8 <= c < i) || (c == 6 && 8 <= r < i) then Filled((r + c) % 2 == 0) else old(m[r, c])
    {
      m[6, i] := Filled(i % 2 == 0);
      m[i, 6] := Filled(i % 2 == 0);
      i := i + 1;
    }
  }

  /** The timing modules are dark exactly at even positions along row and column 6. */
  lemma TimingColours(i: int, size: int)
    requires 8 <= i < size - 8
    ensures TimingCell(6, i, size) && TimingCell(i, 6, size)
    ensures ((6 + i) % 2 == 0) <==> (i % 2 == 0)
  {
  }

  /** isReservedArea: the three 9x9 (8x9, 9x8) finder corners and row and column 6. */
  predicate IsReservedArea(row: int, col: int, size: int) {
    if (row < 9 && col < 9) || (row < 9 && col >= size - 8) || (row >= size - 8 && col < 9) then true
    else if row == 6 || col == 6 then true
    else false
  }

  /** Whether mask pattern p inverts (row, col); patterns other than 0, 1, 2 never do. */
  predicate ShouldMask(p: int, row: nat, col: nat) {
    if p == 0 then (row + col) % 2 == 0
    else if p == 1 then row % 2 == 0
    else if p == 2 then col % 3 == 0
    else false
  }

  /** One cell after applyMask: null and reserved cells are kept, the others inverted where the pattern says. */
  function MaskCell(x: Cell, row: nat, col: nat, size: int, p: int): (r: Cell)
    ensures r.Null? <==> x.Null?
    ensures x.Null? || IsReservedArea(row, col, size) ==> r == x
    ensures x.Filled? && !IsReservedArea(row, col, size) ==> (r.dark <==> (x.dark != ShouldMask(p, row, col)))
  {
    if x != Null && !IsReservedArea(row, col, size) && ShouldMask(p, row, col) then Filled(!x.dark) else x
  }

  /** Masking twice with the same pattern restores every cell. */
  lemma MaskInvolution(x: Cell, row: nat, col: nat, size: int, p: int)
    ensures MaskCell(MaskCell(x, row, col, size, p), row, col, size, p) == x
  {
  }

  /** Masks 3 and above leave every cell as it is: only patterns 0 to 2 are written out. */
  lemma MaskBeyondTwoIsIdentity(x: Cell, row: nat, col: nat, size: int, p: int)
    requires p < 0 || p > 2
    ensures MaskCell(x, row, col, size, p) == x
  {
  }

  /**
   * applyMask: a fresh copy of the matrix with MaskCell applied to every
   * cell; the input matrix is not modified.
   */
  method ApplyMask(m: array2<Cell>, maskPattern: int) returns (masked: array2<Cell>)
    requires m.Length0 == m.Length1
    ensures fresh(masked)
    ensures masked.Length0 == m.Length0 && masked.Length1 == m.Length1
    ensures forall r, c :: 0 <= r < m.Length0 && 0 <= c < m.Length1 ==>
              masked[r, c] == MaskCell(m[r, c], r, c, m.Length0, maskPattern)
  {
    var size := m.Length0;
    masked := new Cell[size, size]((r, c) reads m => if 0 <= r < m.Length0 && 0 <= c < m.Length1 then m[r, c] else Null);
    var row := 0;
    while row < size
      invariant 0 <= row <= size
      invariant forall r, c :: 0 <= r < size && 0 <= c < size ==>
                  masked[r, c] == if r < row then MaskCell(m[r, c], r, c, size, maskPattern) else m[r, c]
    {
      var col := 0;
      while col < size
        invariant 0 <= col <= size
        invariant forall r, c :: 0 <= r < size && 0 <= c < size ==>
                    masked[r, c] == if r < row || (r == row && c < col) then MaskCell(m[r, c], r, c, size, maskPattern) else m[r, c]
      {
        if masked[row, col] != Null && !IsReservedArea(row, col, size) {
          var shouldMask := false;
          if maskPattern == 0 {
            shouldMask := (row + col) % 2 == 0;
          } else if maskPattern == 1 {
            shouldMask := row % 2 == 0;
          } else if maskPattern == 2 {
            shouldMask := col % 3 == 0;
          }
          if shouldMask {
            masked[row, col] := Filled(!masked[row, col].dark);
          }
        }
        col := col + 1;
      }
      row := row + 1;
    }
  }
}
