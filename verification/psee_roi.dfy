/** The ROI facility: lines in, register words out, lines back. */
module PseeRoi {
  import opened Roi
  import opened RoiWords

  function Min(a: int, b: int): int { if a < b then a else b }

  function Max(a: int, b: int): int { if a > b then a else b }

  // ----- Which bits a list of windows sets -----

  /** Sensor size, x direction, register word size and origin offsets. */
  datatype Geometry = Geometry(width: nat, height: nat, flipped: bool, wordSize: nat, xOffset: nat, yOffset: nat) {
    predicate Valid() { 0 < wordSize <= 32 }

    /** Column `c` of the clamped, shifted window. */
    predicate CoversColumn(w: Window, c: int) {
      Max(w.x + xOffset, 0) <= c < Min(w.x + xOffset + w.width, width - xOffset)
    }

    predicate CoversRow(w: Window, r: int) {
      Max(w.y + yOffset, 0) <= r < Min(w.y + yOffset + w.height, height - yOffset)
    }

    /** Bit `k` stands for a column, from the other end if flipped, and from `width` on for a row. */
    predicate CoversBit(w: Window, k: int) {
      if k < width then CoversColumn(w, if flipped then width - 1 - k else k) else CoversRow(w, k - width)
    }
  }

  ghost predicate SomeCovers(g: Geometry, windows: seq<Window>, k: int) {
    exists i :: 0 <= i < |windows| && g.CoversBit(windows[i], k)
  }

  ghost predicate Marks(g: Geometry, windows: seq<Window>, bits: seq<bool>) {
    |bits| == g.width + g.height && forall k :: 0 <= k < |bits| ==> (bits[k] <==> SomeCovers(g, windows, k))
  }

  lemma CoversMore(g: Geometry, windows: seq<Window>, n: nat, k: int)
    requires n < |windows|
    ensures SomeCovers(g, windows[..n + 1], k) <==> SomeCovers(g, windows[..n], k) || g.CoversBit(windows[n], k)
  {
  }

  /** Sets the bits of every window, clamped to the sensor, and packs them into words. */
  method CreateRois(windows: seq<Window>, g: Geometry) returns (words: seq<nat>)
    requires g.Valid()
    ensures exists bits :: Marks(g, windows, bits) && words == PackAll(bits, g.wordSize)
  {
    hide SomeCovers;
    var nelem := g.width + g.height;
    var isPixelInRoi := new bool[nelem](_ => false);
    NothingCovered(g);
    var n := 0;
    while n < |windows|
      invariant n <= |windows| && Marks(g, windows[..n], isPixelInRoi[..])
    {
      MarkWindow(g, windows, n, isPixelInRoi);
      n := n + 1;
    }
    assert windows[..n] == windows;
    words := GetRoiBitword(isPixelInRoi[..], g.wordSize);
  }

  lemma NothingCovered(g: Geometry)
    ensures forall k :: !SomeCovers(g, [], k)
  {
  }

  /** The body of the loop over the windows. */
  method MarkWindow(g: Geometry, windows: seq<Window>, n: nat, isPixelInRoi: array<bool>)
    requires n < |windows| && Marks(g, windows[..n], isPixelInRoi[..])
    modifies isPixelInRoi
    ensures Marks(g, windows[..n + 1], isPixelInRoi[..])
  {
    hide SomeCovers;
    var roi := windows[n];
    var maxX := Min(roi.x + g.xOffset + roi.width, g.width - g.xOffset);
    var maxY := Min(roi.y + g.yOffset + roi.height, g.height - g.yOffset);
    var minX := Max(roi.x + g.xOffset, 0);
    var minY := Max(roi.y + g.yOffset, 0);
    ghost var was := isPixelInRoi[..];
    var col := minX;
    while col < maxX
      invariant minX <= col && isPixelInRoi.Length == g.width + g.height
      invariant forall k :: g.width <= k < isPixelInRoi.Length ==> isPixelInRoi[k] == was[k]
      invariant forall k :: 0 <= k < g.width ==>
        (isPixelInRoi[k] <==> was[k] || (minX <= (if g.flipped then g.width - 1 - k else k) < Min(col, maxX)))
    {
      var ind := if g.flipped then g.width - 1 - col else col;
      isPixelInRoi[ind] := true;
      col := col + 1;
    }
    var row := g.width + minY;
    while row < g.width + maxY
      invariant g.width + minY <= row && isPixelInRoi.Length == g.width + g.height
      invariant forall k :: 0 <= k < g.width ==> (isPixelInRoi[k] <==> was[k] || g.CoversBit(roi, k))
      invariant forall k :: g.width <= k < isPixelInRoi.Length ==>
        (isPixelInRoi[k] <==> was[k] || (minY <= k - g.width < Min(row - g.width, maxY)))
    {
      isPixelInRoi[row] := true;
      row := row + 1;
    }
    forall k | 0 <= k < isPixelInRoi.Length ensures isPixelInRoi[k] <==> SomeCovers(g, windows[..n + 1], k) {
      CoversMore(g, windows, n, k);
      assert was[k] <==> SomeCovers(g, windows[..n], k);
    }
  }

  /** Bit `k` of a list of words, counting from bit 0 of the first word. */
  predicate RegisterBit(words: seq<nat>, size: nat, k: nat)
    requires size > 0
  {
    var word: nat, bit: nat := k / size, k % size;
    word < |words| && BitOf(words[word], bit)
  }

  /** A bit of the register is set exactly when a clamped window covers its column or row. */
  lemma WordsOfWindows(g: Geometry, windows: seq<Window>, words: seq<nat>, bits: seq<bool>, k: nat)
    requires g.Valid() && k < g.width + g.height
    requires Marks(g, windows, bits) && words == PackAll(bits, g.wordSize)
    ensures |words| == (g.width + g.height + g.wordSize - 1) / g.wordSize
    ensures RegisterBit(words, g.wordSize, k) <==> SomeCovers(g, windows, k)
  {
    hide BitOf, SomeCovers;
    PackAllBit(bits, g.wordSize, k);
  }

  /** A window is moved by the offsets and cut off at the sensor's edges, less the offset on the far side. */
  lemma Clamping(g: Geometry, w: Window, c: int, r: int)
    ensures g.CoversColumn(w, c) <==> w.HasColumn(c - g.xOffset) && 0 <= c < g.width - g.xOffset
    ensures g.CoversRow(w, r) <==> w.HasRow(r - g.yOffset) && 0 <= r < g.height - g.yOffset
  {
  }

  /**
   The register of any windows, wherever they lie: the bit of column `c`, counted from the other end on a flipped
   sensor, is set exactly if some window has that column before it is moved and the column is not cut off; rows follow.
   */
  lemma RegisterOfWindows(g: Geometry, windows: seq<Window>, words: seq<nat>, bits: seq<bool>, c: nat, r: nat)
    requires g.Valid() && c < g.width && r < g.height
    requires Marks(g, windows, bits) && words == PackAll(bits, g.wordSize)
    ensures RegisterBit(words, g.wordSize, if g.flipped then g.width - 1 - c else c)
       <==> c < g.width - g.xOffset && ColumnInSome(windows, c - g.xOffset)
    ensures RegisterBit(words, g.wordSize, g.width + r)
       <==> r < g.height - g.yOffset && RowInSome(windows, r - g.yOffset)
  {
    hide RegisterBit, PackAll;
    var k := if g.flipped then g.width - 1 - c else c;
    WordsOfWindows(g, windows, words, bits, k);
    WordsOfWindows(g, windows, words, bits, g.width + r);
    forall i | 0 <= i < |windows|
      ensures g.CoversBit(windows[i], k) <==> c < g.width - g.xOffset && windows[i].HasColumn(c - g.xOffset)
      ensures g.CoversBit(windows[i], g.width + r) <==> r < g.height - g.yOffset && windows[i].HasRow(r - g.yOffset)
    {
      Clamping(g, windows[i], c, r);
    }
  }

  // ----- Lines straight to words -----

  function Mirrored(line: seq<bool>): (r: seq<bool>)
    ensures |r| == |line| && forall i :: 0 <= i < |r| ==> r[i] == line[|line| - 1 - i]
  {
    seq(|line|, i requires 0 <= i < |line| => line[|line| - 1 - i])
  }

  /** The line itself, or all false when the other line has no enabled entry and so makes no window. */
  function Kept(line: seq<bool>, other: seq<bool>): (r: seq<bool>)
    ensures |r| == |line| && forall i :: 0 <= i < |r| ==> (r[i] <==> line[i] && SomeEnabled(other))
  {
    if SomeEnabled(other) then line else seq(|line|, _ => false)
  }

  /** The bits of two lines without the detour through windows: the columns, mirrored if flipped, then the rows. */
  function LineBits(g: Geometry, cols: seq<bool>, rows: seq<bool>): (r: seq<bool>)
    ensures |r| == |cols| + |rows|
  {
    (if g.flipped then Mirrored(Kept(cols, rows)) else Kept(cols, rows)) + Kept(rows, cols)
  }

  /** Going through the windows sets the same bits as going straight from the lines. */
  lemma LinesPackDirectly(g: Geometry, cols: seq<bool>, rows: seq<bool>, windows: seq<Window>, bits: seq<bool>)
    requires g.Valid() && g.xOffset == 0 && g.yOffset == 0 && |cols| == g.width && |rows| == g.height
    requires WindowsOf(cols, rows, windows) && Marks(g, windows, bits)
    ensures bits == LineBits(g, cols, rows)
  {
    hide SomeEnabled, ColumnInSome, RowInSome, SomeCovers, Kept, WindowsOf;
    var want := LineBits(g, cols, rows);
    forall k | 0 <= k < |bits| ensures bits[k] == want[k] {
      if k < g.width {
        var c := if g.flipped then g.width - 1 - k else k;
        ColumnsOfWindows(cols, rows, windows, c);
        ColumnCovered(g, cols, rows, windows, k);
      } else {
        RowsOfWindows(cols, rows, windows, k - g.width);
        RowCovered(g, cols, rows, windows, k);
      }
    }
  }

  lemma ColumnCovered(g: Geometry, cols: seq<bool>, rows: seq<bool>, windows: seq<Window>, k: nat)
    requires g.xOffset == 0 && |cols| == g.width && |rows| == g.height && WindowsOf(cols, rows, windows) && k < g.width
    ensures SomeCovers(g, windows, k) <==> ColumnInSome(windows, if g.flipped then g.width - 1 - k else k)
  {
  }

  lemma RowCovered(g: Geometry, cols: seq<bool>, rows: seq<bool>, windows: seq<Window>, k: nat)
    requires g.yOffset == 0 && |cols| == g.width && |rows| == g.height && WindowsOf(cols, rows, windows)
    requires g.width <= k < g.width + g.height
    ensures SomeCovers(g, windows, k) <==> RowInSome(windows, k - g.width)
  {
  }

  /** The register of two lines, bit by bit. */
  lemma RegisterOfLines(g: Geometry, cols: seq<bool>, rows: seq<bool>, c: nat, r: nat)
    requires g.Valid() && |cols| == g.width && |rows| == g.height && c < g.width && r < g.height
    ensures var words := PackAll(LineBits(g, cols, rows), g.wordSize);
            && (RegisterBit(words, g.wordSize, if g.flipped then g.width - 1 - c else c)
                <==> cols[c] && exists i :: 0 <= i < |rows| && rows[i])
            && (RegisterBit(words, g.wordSize, g.width + r) <==> rows[r] && exists i :: 0 <= i < |cols| && cols[i])
  {
    hide PackAll, BitOf;
    var bits := LineBits(g, cols, rows);
    PackAllBit(bits, g.wordSize, if g.flipped then g.width - 1 - c else c);
    PackAllBit(bits, g.wordSize, g.width + r);
  }

  // ----- The facility -----

  class PseeROI {
    const geometry: Geometry
    /** Not initialised by the source's constructor. */
    var isLines: bool
    var activeWindows: seq<Window>
    /** The parameters of the last `write_ROI`. */
    var written: seq<nat>
    /** The lines last set. */
    ghost var cols: seq<bool>
    ghost var rows: seq<bool>

    constructor (geometry: Geometry, uninitialised: bool)
      requires geometry.Valid() && geometry.xOffset == 0 && geometry.yOffset == 0
      ensures this.geometry == geometry && isLines == uninitialised && activeWindows == []
      ensures Valid()
    {
      this.geometry := geometry;
      isLines, activeWindows, written := uninitialised, [], [];
      cols, rows := seq(geometry.width, _ => false), seq(geometry.height, _ => false);
    }

    ghost predicate Valid()
      reads this
    {
      && geometry.Valid() && geometry.xOffset == 0 && geometry.yOffset == 0
      && |cols| == geometry.width && |rows| == geometry.height
      && (isLines ==> WindowsOf(cols, rows, activeWindows))
    }

    /** Refuses lines of the wrong size; otherwise programs the sensor with them. */
    method SetLines(newCols: seq<bool>, newRows: seq<bool>) returns (ok: bool)
      requires Valid()
      modifies this
      ensures Valid()
      ensures ok <==> |newCols| == geometry.width && |newRows| == geometry.height
      ensures !ok ==> isLines == old(isLines) && activeWindows == old(activeWindows) && written == old(written)
                      && cols == old(cols) && rows == old(rows)
      ensures ok ==> isLines && cols == newCols && rows == newRows
      ensures ok ==> written == PackAll(LineBits(geometry, newCols, newRows), geometry.wordSize)
    {
      hide WindowsOf, Marks, PackAll, LineBits;
      if |newCols| != geometry.width || |newRows| != geometry.height {
        return false;
      }
      isLines := true;
      var windows := LinesToWindows(newCols, newRows);
      activeWindows := windows;
      written := CreateRois(windows, geometry);
      cols, rows := newCols, newRows;
      ghost var bits :| Marks(geometry, windows, bits) && written == PackAll(bits, geometry.wordSize);
      LinesPackDirectly(geometry, newCols, newRows, windows, bits);
      ok := true;
    }

    method SetWindows(windows: seq<Window>)
      requires Valid()
      modifies this
      ensures Valid() && !isLines && activeWindows == windows
      ensures exists bits :: Marks(geometry, windows, bits) && written == PackAll(bits, geometry.wordSize)
    {
      hide Marks, PackAll;
      written := CreateRois(windows, geometry);
      isLines := false;
      activeWindows := windows;
    }

    /**
     The enabled lines, if the last thing set was lines: they are the ones that were set if both vectors had an
     enabled entry or neither did, and all false otherwise.
     */
    method GetLines() returns (ok: bool, gotCols: seq<bool>, gotRows: seq<bool>)
      requires Valid()
      ensures ok <==> isLines
      ensures ok ==> gotCols == Kept(cols, rows) && gotRows == Kept(rows, cols)
      ensures ok ==> (gotCols == cols && gotRows == rows <==> (SomeEnabled(cols) <==> SomeEnabled(rows)))
    {
      hide ColumnInSome, RowInSome;
      if !isLines {
        return false, [], [];
      }
      gotCols, gotRows := LinesFromWindows(activeWindows, geometry.width, geometry.height);
      ok := true;
      forall c | 0 <= c < |cols| ensures gotCols[c] <==> cols[c] && SomeEnabled(rows) {
        ColumnsOfWindows(cols, rows, activeWindows, c);
      }
      forall r | 0 <= r < |rows| ensures gotRows[r] <==> rows[r] && SomeEnabled(cols) {
        RowsOfWindows(cols, rows, activeWindows, r);
      }
      hide WindowsOf, SomeEnabled, Kept;
      SameLinesIff(cols, rows);
    }
  }

  lemma SameLinesIff(cols: seq<bool>, rows: seq<bool>)
    ensures Kept(cols, rows) == cols && Kept(rows, cols) == rows <==> (SomeEnabled(cols) <==> SomeEnabled(rows))
  {
  }
}
