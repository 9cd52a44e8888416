/**
 * generateQRMatrix and the version check of generateQRCode: the fixed
 * patterns, the encoded data placed in zig-zag order, mask 0 and the format
 * information, on a size x size matrix for one entry of the version table.
 */
module QrSymbol {
  import opened Wrappers
  import opened QrVersions
  import opened QrMatrix
  import opened QrBitStream
  import opened QrPlacement
  import opened QrFormat

  /** The shape every entry of the version table has: versions 1 to 4, four modules more per version. */
  predicate Shaped(info: VersionInfo) {
    1 <= info.version <= 4 && info.size == 17 + 4 * info.version
  }

  lemma EntryShape(info: VersionInfo)
    requires info in Versions
    ensures Shaped(info)
  {
    VersionsWellFormed();
  }

  /** Sizes run over the odd numbers 21 .. 33. */
  lemma ShapedSize(info: VersionInfo)
    requires Shaped(info)
    ensures 21 <= info.size <= 33 && info.size % 2 == 1
  {
  }

  // ---------------------------------------------------------------------
  // The fixed patterns

  /**
   * The cell (r, c) once the finder patterns (top-left, top-right,
   * bottom-left), the separators, the timing patterns and the dark module
   * have been written in that order, each write replacing the earlier ones.
   */
  function FixedCell(r: int, c: int, info: VersionInfo): Cell {
    var size := info.size;
    if size > 21 && r == 4 * info.version + 9 && c == 8 then Filled(true)
    else if TimingCell(r, c, size) then Filled((r + c) % 2 == 0)
    else if SeparatorCell(r, c, size) then Filled(false)
    else if InSquare(size - 7, 0, r, c) then Filled(FinderDark(r - (size - 7), c))
    else if InSquare(0, size - 7, r, c) then Filled(FinderDark(r, c - (size - 7)))
    else if InSquare(0, 0, r, c) then Filled(FinderDark(r, c))
    else Null
  }

  /** The matrix handed to placeData. */
  function FixedGrid(info: VersionInfo): (g: seq<seq<Cell>>)
    ensures IsGrid(g, info.size)
  {
    seq(info.size, r => seq(info.size, c => FixedCell(r, c, info)))
  }

  /** The fresh all-null matrix with the fixed patterns written into it. */
  method AddFixedPatterns(info: VersionInfo) returns (m: array2<Cell>)
    requires Shaped(info)
    ensures fresh(m) && m.Length0 == info.size && m.Length1 == info.size
    ensures forall r, c :: 0 <= r < info.size && 0 <= c < info.size ==> m[r, c] == FixedCell(r, c, info)
  {
    ShapedSize(info);
    var size := info.size;
    m := new Cell[size, size]((_, _) => Null);
    AddFinderPattern(m, 0, 0);
    AddFinderPattern(m, 0, size - 7);
    AddFinderPattern(m, size - 7, 0);
    AddSeparators(m, size);
    AddTimingPatterns(m, size);
    if size > 21 {
      m[4 * info.version + 9, 8] := Filled(true);
    }
  }

  // ---------------------------------------------------------------------
  // The whole symbol

  /** The booleans encodeData returns. */
  function DataBits(text: seq<CodeUnit>, level: EcLevel, info: VersionInfo): seq<bool> {
    ToBools(WithEcBytes(PreEcStream(text, level, info), level, info))
  }

  /** The fifteen format bits addFormatInfo writes for mask 0. */
  function FormatBits(level: EcLevel): (bits: seq<Bit>)
    ensures |bits| == 15
  {
    Bits(FinalFormat(FormatInfo(level, 0)), 15)
  }

  /** The cell of placeData's result, before masking. */
  function PlacedCell(text: seq<CodeUnit>, level: EcLevel, info: VersionInfo, r: int, c: int): Cell
    requires 0 <= r < info.size && 0 <= c < info.size
  {
    Placed(FixedGrid(info), DataBits(text, level, info), ZigZag(info.size), r, c)
  }

  /** The cell (r, c) of the matrix generateQRMatrix returns. */
  function SymbolCell(text: seq<CodeUnit>, level: EcLevel, info: VersionInfo, r: nat, c: nat): Cell
    requires r < info.size && c < info.size
  {
    AfterFormat(MaskCell(PlacedCell(text, level, info, r, c), r, c, info.size, 0), (r, c), info.size, FormatBits(level), 15)
  }

  lemma SnapshotIsFixed(m: array2<Cell>, info: VersionInfo)
    requires m.Length0 == info.size && m.Length1 == info.size
    requires forall r, c :: 0 <= r < info.size && 0 <= c < info.size ==> m[r, c] == FixedCell(r, c, info)
    ensures Snapshot(m) == FixedGrid(info)
  {
    var g := Snapshot(m);
    forall r | 0 <= r < info.size
      ensures g[r] == FixedGrid(info)[r]
    {
    }
  }

  /** The matrix is the symbol generateQRMatrix builds for the text at the level with that table entry. */
  ghost predicate IsSymbol(matrix: array2<Cell>, text: seq<CodeUnit>, level: EcLevel, info: VersionInfo)
    reads matrix
  {
    && matrix.Length0 == info.size && matrix.Length1 == info.size
    && forall r, c :: 0 <= r < info.size && 0 <= c < info.size ==> matrix[r, c] == SymbolCell(text, level, info, r, c)
  }

  /** generateQRMatrix: a fresh matrix whose every cell is SymbolCell. */
  method GenerateQrMatrix(text: seq<CodeUnit>, info: VersionInfo, level: EcLevel) returns (matrix: array2<Cell>)
    requires Shaped(info)
    ensures fresh(matrix) && IsSymbol(matrix, text, level, info)
  {
    ShapedSize(info);
    var size := info.size;
    var m := AddFixedPatterns(info);
    SnapshotIsFixed(m, info);
    var encodedData := EncodeData(text, level, info);
    PlaceData(m, encodedData, size);
    matrix := ApplyMask(m, 0);
    AddFormatInfo(matrix, level, 0, size);
  }

  /** generateQRCode up to the drawing: the version check, then the matrix. */
  method GenerateQrCode(text: seq<CodeUnit>, level: EcLevel) returns (r: Result<array2<Cell>, string>)
    ensures r.Failure? <==> SelectVersion(|text|, level).None?
    ensures r.Failure? ==> r.error == "Text too long for QR code"
    ensures r.Success? ==> fresh(r.value) && IsSymbol(r.value, text, level, SelectVersion(|text|, level).value)
  {
    var version := SelectVersion(|text|, level);
    if version.None? {
      return Failure("Text too long for QR code");
    }
    EntryShape(version.value);
    var matrix := GenerateQrMatrix(text, version.value, level);
    r := Success(matrix);
  }

  // ---------------------------------------------------------------------
  // What the symbol holds

  /** A cell outside row 8 and column 8 is no format cell: addFormatInfo leaves it alone. */
  lemma OffFormatLines(size: int, p: Pos)
    requires size >= 17 && p.0 != 8 && p.1 != 8
    ensures LastWriter(p, size, 15) == None
  {
    forall i | 0 <= i < 15
      ensures !WritesAt(i, size, p)
    {
      FormatCellsReserved(size, i);
    }
    LastWriterIsLast(p, size, 15);
  }

  /** Row 6 and column 6 hold no format cell either: both copies step over them. */
  lemma OffFormatTiming(size: int, p: Pos)
    requires size >= 17 && (p.0 == 6 || p.1 == 6)
    ensures LastWriter(p, size, 15) == None
  {
    forall i | 0 <= i < 15
      ensures !WritesAt(i, size, p)
    {
    }
    LastWriterIsLast(p, size, 15);
  }

  /** The top-left corners of the three finder patterns. */
  predicate FinderCorner(r0: int, c0: int, size: int) {
    (r0 == 0 && c0 == 0) || (r0 == 0 && c0 == size - 7) || (r0 == size - 7 && c0 == 0)
  }

  /** Before placeData the three corners hold the finder pattern, inside the reserved area and off the format lines. */
  lemma FixedFinder(info: VersionInfo, r0: nat, c0: nat, dr: nat, dc: nat)
    requires Shaped(info) && FinderCorner(r0, c0, info.size) && dr < 7 && dc < 7
    ensures FixedCell(r0 + dr, c0 + dc, info) == Filled(FinderDark(dr, dc))
    ensures IsReservedArea(r0 + dr, c0 + dc, info.size) && r0 + dr != 8 && c0 + dc != 8
  {
    ShapedSize(info);
  }

  /** Before placeData the separators are light and reserved. */
  lemma FixedSeparators(info: VersionInfo, r: nat, c: nat)
    requires Shaped(info) && r < info.size && c < info.size && SeparatorCell(r, c, info.size)
    ensures FixedCell(r, c, info) == Filled(false) && IsReservedArea(r, c, info.size) && r != 8 && c != 8
  {
    ShapedSize(info);
  }

  /** Before placeData the timing cells alternate, dark at even positions, and are reserved. */
  lemma FixedTiming(info: VersionInfo, i: nat)
    requires Shaped(info) && 8 <= i < info.size - 8
    ensures FixedCell(6, i, info) == Filled(i % 2 == 0) && IsReservedArea(6, i, info.size)
    ensures FixedCell(i, 6, info) == Filled(i % 2 == 0) && IsReservedArea(i, 6, info.size)
  {
    ShapedSize(info);
  }

  /** Before placeData the dark module is set, and reserved, in symbols wider than 21. */
  lemma FixedDarkModule(info: VersionInfo)
    requires Shaped(info) && info.size > 21
    ensures 4 * info.version + 9 == info.size - 8
    ensures FixedCell(info.size - 8, 8, info) == Filled(true) && IsReservedArea(info.size - 8, 8, info.size)
  {
  }

  /** A cell that is set before placeData and reserved keeps its colour to the end. */
  lemma FixedCellKept(text: seq<CodeUnit>, level: EcLevel, info: VersionInfo, r: nat, c: nat)
    requires Shaped(info) && r < info.size && c < info.size
    requires FixedCell(r, c, info) != Null && IsReservedArea(r, c, info.size)
    requires LastWriter((r, c), info.size, 15) == None
    ensures SymbolCell(text, level, info, r, c) == FixedCell(r, c, info)
  {
    var x := FixedCell(r, c, info);
    PlacedFills(FixedGrid(info), DataBits(text, level, info), ZigZag(info.size), r, c);
    assert PlacedCell(text, level, info, r, c) == x;
    assert MaskCell(x, r, c, info.size, 0) == x;
  }

  /** The three corners hold the 7x7 finder pattern. */
  lemma SymbolFinder(text: seq<CodeUnit>, level: EcLevel, info: VersionInfo, r0: nat, c0: nat, dr: nat, dc: nat)
    requires Shaped(info) && FinderCorner(r0, c0, info.size) && dr < 7 && dc < 7
    ensures r0 + dr < info.size && c0 + dc < info.size
    ensures SymbolCell(text, level, info, r0 + dr, c0 + dc) == Filled(FinderDark(dr, dc))
  {
    ShapedSize(info);
    FixedFinder(info, r0, c0, dr, dc);
    OffFormatLines(info.size, (r0 + dr, c0 + dc));
    FixedCellKept(text, level, info, r0 + dr, c0 + dc);
  }

  /** The separators around the finder patterns are light. */
  lemma SymbolSeparators(text: seq<CodeUnit>, level: EcLevel, info: VersionInfo, r: nat, c: nat)
    requires Shaped(info) && r < info.size && c < info.size && SeparatorCell(r, c, info.size)
    ensures SymbolCell(text, level, info, r, c) == Filled(false)
  {
    FixedSeparators(info, r, c);
    OffFormatLines(info.size, (r, c));
    FixedCellKept(text, level, info, r, c);
  }

  /** The timing modules along row 6 and column 6 are dark exactly at even positions. */
  lemma SymbolTiming(text: seq<CodeUnit>, level: EcLevel, info: VersionInfo, i: nat)
    requires Shaped(info) && 8 <= i < info.size - 8
    ensures SymbolCell(text, level, info, 6, i) == Filled(i % 2 == 0)
    ensures SymbolCell(text, level, info, i, 6) == Filled(i % 2 == 0)
  {
    FixedTiming(info, i);
    OffFormatTiming(info.size, (6, i));
    OffFormatTiming(info.size, (i, 6));
    FixedCellKept(text, level, info, 6, i);
    FixedCellKept(text, level, info, i, 6);
  }

  /** The dark module (4 * version + 9, 8) is set only in symbols wider than 21; in version 1 that cell is left to the data. */
  lemma SymbolDarkModule(text: seq<CodeUnit>, level: EcLevel, info: VersionInfo)
    requires Shaped(info)
    ensures info.size > 21 ==> SymbolCell(text, level, info, 4 * info.version + 9, 8) == Filled(true)
    ensures info.size == 21 ==> FixedCell(4 * info.version + 9, 8, info) == Null
  {
    var size := info.size;
    if size > 21 {
      FixedDarkModule(info);
      var p := (size - 8, 8);
      forall i | 0 <= i < 15
        ensures !WritesAt(i, size, p)
      {
      }
      LastWriterIsLast(p, size, 15);
      FixedCellKept(text, level, info, size - 8, 8);
    }
  }

  /** Column 6 is taken by fixed patterns from top to bottom, so placeData may skip it. */
  lemma ColumnSixFixed(info: VersionInfo, r: int)
    requires Shaped(info) && 0 <= r < info.size
    ensures FixedCell(r, 6, info) != Null
  {
    ShapedSize(info);
  }

  /** Every cell is null before placeData only if the zig-zag order visits it. */
  lemma NullCellsVisited(info: VersionInfo, r: nat, c: nat)
    requires Shaped(info) && r < info.size && c < info.size && FixedCell(r, c, info) == Null
    ensures (r, c) in ZigZag(info.size)
  {
    ShapedSize(info);
    if c == 6 {
      ColumnSixFixed(info, r);
    }
    ZigZagCovers(info.size - 1, true, info.size, r, c);
  }

  /** After placeData no cell of the matrix is null, and masking and the format bits keep it so. */
  lemma SymbolNoNull(text: seq<CodeUnit>, level: EcLevel, info: VersionInfo, r: nat, c: nat)
    requires Shaped(info) && r < info.size && c < info.size
    ensures PlacedCell(text, level, info, r, c) != Null
    ensures SymbolCell(text, level, info, r, c) != Null
  {
    var g := FixedGrid(info);
    var data := DataBits(text, level, info);
    var order := ZigZag(info.size);
    PlacedFills(g, data, order, r, c);
    if FixedCell(r, c, info) == Null {
      NullCellsVisited(info, r, c);
    }
    var x := PlacedCell(text, level, info, r, c);
    assert x != Null;
    assert MaskCell(x, r, c, info.size, 0) != Null;
  }

  /**
   * A cell outside the reserved area was null before placeData: it holds its
   * data bit (or light past the end of the data), inverted by mask 0 on the
   * cells where row + column is even.
   */
  lemma SymbolData(text: seq<CodeUnit>, level: EcLevel, info: VersionInfo, r: nat, c: nat)
    requires Shaped(info) && r < info.size && c < info.size && !IsReservedArea(r, c, info.size)
    ensures FixedCell(r, c, info) == Null
    ensures IndexOf(ZigZag(info.size), (r, c)).Some?
    ensures var k := NullCount(FixedGrid(info), ZigZag(info.size)[..IndexOf(ZigZag(info.size), (r, c)).value]);
            SymbolCell(text, level, info, r, c) == Filled(DataOrFalse(DataBits(text, level, info), k) != ((r + c) % 2 == 0))
  {
    ShapedSize(info);
    var size := info.size;
    assert FixedCell(r, c, info) == Null;
    NullCellsVisited(info, r, c);
    IndexOfFirst(ZigZag(size), (r, c));
    forall i | 0 <= i < 15
      ensures !WritesAt(i, size, (r, c))
    {
      FormatCellsReserved(size, i);
    }
    LastWriterIsLast((r, c), size, 15);
  }

  /** The first copy of the format information holds the fifteen bits in order. */
  lemma SymbolFirstFormatCopy(text: seq<CodeUnit>, level: EcLevel, info: VersionInfo, i: nat)
    requires Shaped(info) && i < 15
    ensures var p := FirstCopyCell(i);
            && 0 <= p.0 < info.size && 0 <= p.1 < info.size
            && SymbolCell(text, level, info, p.0, p.1) == Filled(FormatBits(level)[i] == 1)
  {
    ShapedSize(info);
    FirstCopyComplete(info.size, i);
  }

  /** The second copy holds the bits in order, except that its cell for bit 5 holds bit 7. */
  lemma SymbolSecondFormatCopy(text: seq<CodeUnit>, level: EcLevel, info: VersionInfo, i: nat)
    requires Shaped(info) && i < 15
    ensures var p := SecondCopyCell(i, info.size);
            && 0 <= p.0 < info.size && 0 <= p.1 < info.size
            && SymbolCell(text, level, info, p.0, p.1) == Filled(FormatBits(level)[if i == 5 then 7 else i] == 1)
  {
    ShapedSize(info);
    SecondCopyHolds(info.size, i);
  }
}
