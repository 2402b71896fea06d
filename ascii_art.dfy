/** A model of the renderer `image_to_ascii` of rs-bad-apple: a decoded
    8-bit luminance image is drawn into a grid of terminal cells by
    nearest-neighbour sampling with one aspect-preserving scale, a 2x2
    ordered-dither threshold per cell, and a choice between the first and
    the last glyph of a fixed character ramp. */
module AsciiArt {

  newtype byte = x: int | 0 <= x < 256

  /** A decoded luma8 image: `luma[y][x]` is the sample at column x, row y. */
  datatype Image = Image(width: nat, height: nat, luma: seq<seq<byte>>) {

    /** Decoded images are non-empty rectangles. */
    predicate Valid() {
      width >= 1 && height >= 1 && |luma| == height &&
      forall y :: 0 <= y < |luma| ==> |luma[y]| == width
    }

    function GetPixel(x: nat, y: nat): byte
      requires Valid() && x < width && y < height
    {
      luma[y][x]
    }
  }

  /** The character ramp, darkest first: 70 glyphs from ' ' to '$', written
      as its first glyph, the 68 in between and its last glyph. */
  const Ramp: string := " " + ".'`^\",:;Il!i><~+_-?][}{1)(|\\/tfjrxnuvczXYUJCLQ0OZmwqpdbkhao*#MW&8%B@" + "$"

  /** The ordered-dither weights, indexed by row parity, then column parity. */
  const DitherMatrix: seq<seq<nat>> := [[1, 3], [4, 2]]

  function Max(a: int, b: int): int { if a >= b then a else b }
  function Min(a: int, b: int): int { if a <= b then a else b }

  // ---------------------------------------------------------------------
  // Sampling

  /** The numerator of the uniform scale max(W/tw, H/th), written over the
      common denominator tw*th. */
  function ScaleNum(img: Image, tw: nat, th: nat): nat {
    Max(img.width * th, img.height * tw)
  }

  /** floor(a / d) on naturals, by repeated subtraction. It stands in for
      `/` by the variable tw*th, which the solver handles poorly once the
      sampling functions unfold; FloorDivIsDiv proves the two equal. */
  function FloorDiv(a: nat, d: nat): nat
    requires d > 0
    decreases a
  {
    if a < d then 0 else 1 + FloorDiv(a - d, d)
  }

  /** floor(k * scale), computed exactly. */
  function Nearest(img: Image, tw: nat, th: nat, k: nat): nat
    requires tw >= 1 && th >= 1
  {
    FloorDiv(k * ScaleNum(img, tw, th), tw * th)
  }

  /** The source column of output column `col`, clamped to the image. */
  function SampleX(img: Image, tw: nat, th: nat, col: nat): (px: nat)
    requires img.Valid() && tw >= 1 && th >= 1
    ensures px < img.width
    ensures px == Nearest(img, tw, th, col) || (px == img.width - 1 && Nearest(img, tw, th, col) > px)
  {
    Min(Nearest(img, tw, th, col), img.width - 1)
  }

  /** The source row of output row `row`, clamped to the image. */
  function SampleY(img: Image, tw: nat, th: nat, row: nat): (py: nat)
    requires img.Valid() && tw >= 1 && th >= 1
    ensures py < img.height
    ensures py == Nearest(img, tw, th, row) || (py == img.height - 1 && Nearest(img, tw, th, row) > py)
  {
    Min(Nearest(img, tw, th, row), img.height - 1)
  }

  // ---------------------------------------------------------------------
  // Dithering and glyph choice

  /** The brightness threshold weight / 5 * 255 of cell (col, row). */
  function Threshold(col: nat, row: nat): (t: nat)
    ensures row % 2 == 0 && col % 2 == 0 ==> t == 51
    ensures row % 2 == 0 && col % 2 == 1 ==> t == 153
    ensures row % 2 == 1 && col % 2 == 0 ==> t == 204
    ensures row % 2 == 1 && col % 2 == 1 ==> t == 102
  {
    DitherMatrix[row % 2][col % 2] * 255 / 5
  }

  /** The ramp index chosen for a luminance against a threshold. */
  function GlyphIndex(lum: byte, t: nat): (g: nat)
    ensures g < |Ramp|
    ensures g == |Ramp| - 1 <==> lum as int > t
    ensures g == 0 <==> lum as int <= t
  {
    if lum as int > t then |Ramp| - 1 else 0
  }

  /** The luminance sampled for cell (col, row). */
  function CellLuma(img: Image, tw: nat, th: nat, col: nat, row: nat): byte
    requires img.Valid() && col < tw && row < th
  {
    img.GetPixel(SampleX(img, tw, th, col), SampleY(img, tw, th, row))
  }

  /** The glyph drawn in cell (col, row): only the first or the last glyph of
      the ramp ever appears. */
  function Cell(img: Image, tw: nat, th: nat, col: nat, row: nat): (c: char)
    requires img.Valid() && col < tw && row < th
    ensures c == Ramp[0] || c == Ramp[|Ramp| - 1]
    ensures c == ' ' || c == '$'
  {
    Ramp[GlyphIndex(CellLuma(img, tw, th, col, row), Threshold(col, row))]
  }

  /** A cell shows the last glyph exactly when its sample is strictly
      brighter than its threshold, and the first glyph otherwise. */
  lemma CellDecision(img: Image, tw: nat, th: nat, col: nat, row: nat)
    requires img.Valid() && col < tw && row < th
    ensures Cell(img, tw, th, col, row) == Ramp[|Ramp| - 1] <==> CellLuma(img, tw, th, col, row) as int > Threshold(col, row)
    ensures Cell(img, tw, th, col, row) == Ramp[0] <==> CellLuma(img, tw, th, col, row) as int <= Threshold(col, row)
  {
  }

  // ---------------------------------------------------------------------
  // The frame

  /** The first n glyphs of output row `row`. */
  function Cells(img: Image, tw: nat, th: nat, row: nat, n: nat): (s: string)
    requires img.Valid() && row < th && n <= tw
    ensures |s| == n
  {
    if n == 0 then [] else Cells(img, tw, th, row, n - 1) + [Cell(img, tw, th, n - 1, row)]
  }

  /** The offset of row `row` in a frame whose rows are tw glyphs and a
      newline: row * (tw + 1), counted out row by row so that the index
      lemmas stay linear; RowStartIsProduct proves it equal to the product. */
  function RowStart(row: nat, tw: nat): nat {
    if row == 0 then 0 else RowStart(row - 1, tw) + tw + 1
  }

  /** Row assembly: every line followed by a newline. */
  function Join(lines: seq<string>): string {
    if lines == [] then [] else Join(lines[..|lines| - 1]) + lines[|lines| - 1] + "\n"
  }

  /** The glyphs of every row of the frame. */
  function Lines(img: Image, tw: nat, th: nat): seq<string>
    requires img.Valid()
  {
    seq(th, row requires 0 <= row < th => Cells(img, tw, th, row, tw))
  }

  /** The whole frame drawn for a `tw` x `th` terminal. */
  function Render(img: Image, tw: nat, th: nat): string
    requires img.Valid()
  {
    Join(Lines(img, tw, th))
  }

  /** The renderer as the source runs it: a row loop around a column loop,
      pushing one glyph per cell and a newline after each row. */
  method ImageToAscii(img: Image, tw: nat, th: nat) returns (art: string)
    requires img.Valid()
    ensures art == Render(img, tw, th)
  {
    art := [];
    var row := 0;
    while row < th
      invariant row <= th
      invariant art == Join(Lines(img, tw, th)[..row])
    {
      var col := 0;
      while col < tw
        invariant col <= tw
        invariant art == Join(Lines(img, tw, th)[..row]) + Cells(img, tw, th, row, col)
      {
        var px := SampleX(img, tw, th, col);
        var py := SampleY(img, tw, th, row);
        var oldPixel := img.GetPixel(px, py);
        var threshold := Threshold(col, row);
        var index := GlyphIndex(oldPixel, threshold);
        art := art + [Ramp[index]];
        col := col + 1;
      }
      assert Lines(img, tw, th)[..row + 1][..row] == Lines(img, tw, th)[..row];
      art := art + "\n";
      row := row + 1;
    }
    assert Lines(img, tw, th)[..th] == Lines(img, tw, th);
  }

  // ---------------------------------------------------------------------
  // Arithmetic helpers

  lemma MulLe(a: nat, b: nat, c: nat)
    requires a <= b
    ensures a * c <= b * c
  {
  }

  lemma MulCancelLt(x: int, y: int, d: nat)
    requires d > 0 && x * d < y * d
    ensures x < y
  {
  }

  lemma DivUnique(x: nat, d: nat, q: nat, r: nat)
    requires d > 0 && r < d && x == q * d + r
    ensures x / d == q && x % d == r
  {
    var q', r' := x / d, x % d;
    assert (q - q') * d == r' - r;
    MulCancelLt(q - q', 1, d);
    assert (q' - q) * d == r - r';
    MulCancelLt(q' - q, 1, d);
  }

  lemma DivMonotone(a: nat, b: nat, d: nat)
    requires a <= b && d > 0
    ensures a / d <= b / d
  {
    assert (a / d) * d <= a;
    assert b < (b / d + 1) * d;
    MulCancelLt(a / d, b / d + 1, d);
  }

  lemma DivCancel(a: nat, b: nat, c: nat)
    requires b > 0 && c > 0
    ensures (a * c) / (b * c) == a / b
  {
    var q, r := a / b, a % b;
    assert a * c == q * (b * c) + r * c;
    MulLe(r, b - 1, c);
    DivUnique(a * c, b * c, q, r * c);
  }

  /** Repeated subtraction computes Euclidean division. */
  lemma {:induction false} FloorDivIsDiv(a: nat, d: nat)
    requires d > 0
    ensures FloorDiv(a, d) == a / d
    decreases a
  {
    if a < d {
      DivUnique(a, d, 0, a);
    } else {
      FloorDivIsDiv(a - d, d);
      DivUnique(a, d, (a - d) / d + 1, (a - d) % d);
    }
  }

  // ---------------------------------------------------------------------
  // Properties of sampling

  lemma NearestIsDiv(img: Image, tw: nat, th: nat, k: nat)
    requires tw >= 1 && th >= 1
    ensures Nearest(img, tw, th, k) == k * ScaleNum(img, tw, th) / (tw * th)
  {
    FloorDivIsDiv(k * ScaleNum(img, tw, th), tw * th);
  }

  /** floor(max(A/p, B/q)) == max(floor(A/p), floor(B/q)), over the common
      denominator p*q. */
  lemma FloorOfMax(a: nat, b: nat, p: nat, q: nat)
    requires p > 0 && q > 0
    ensures Max(a * q, b * p) / (p * q) == Max(a / p, b / q)
  {
    DivCancel(a, p, q);
    DivCancel(b, q, p);
    assert q * p == p * q;
    if a * q >= b * p {
      DivMonotone(b * p, a * q, p * q);
    } else {
      DivMonotone(a * q, b * p, p * q);
    }
  }

  /** floor(k * max(W/tw, H/th)) is the larger of the two per-axis floors
      floor(k*W/tw) and floor(k*H/th). */
  lemma NearestIsMaxOfAxes(img: Image, tw: nat, th: nat, k: nat)
    requires tw >= 1 && th >= 1
    ensures Nearest(img, tw, th, k) == Max(k * img.width / tw, k * img.height / th)
  {
    var w, h := img.width, img.height;
    NearestIsDiv(img, tw, th, k);
    assert k * (w * th) == (k * w) * th;
    assert k * (h * tw) == (k * h) * tw;
    if w * th >= h * tw {
      MulLe(h * tw, w * th, k);
    } else {
      MulLe(w * th, h * tw, k);
    }
    assert k * ScaleNum(img, tw, th) == Max((k * w) * th, (k * h) * tw);
    FloorOfMax(k * w, k * h, tw, th);
  }

  /** Nearest-neighbour sampling never moves backwards. */
  lemma NearestMonotone(img: Image, tw: nat, th: nat, k1: nat, k2: nat)
    requires tw >= 1 && th >= 1 && k1 <= k2
    ensures Nearest(img, tw, th, k1) <= Nearest(img, tw, th, k2)
  {
    NearestIsDiv(img, tw, th, k1);
    NearestIsDiv(img, tw, th, k2);
    MulLe(k1, k2, ScaleNum(img, tw, th));
    DivMonotone(k1 * ScaleNum(img, tw, th), k2 * ScaleNum(img, tw, th), tw * th);
  }

  /** The clamped source column is non-decreasing in the output column. */
  lemma SampleXMonotone(img: Image, tw: nat, th: nat, c1: nat, c2: nat)
    requires img.Valid() && tw >= 1 && th >= 1 && c1 <= c2
    ensures SampleX(img, tw, th, c1) <= SampleX(img, tw, th, c2)
  {
    NearestMonotone(img, tw, th, c1, c2);
  }

  /** The clamped source row is non-decreasing in the output row. */
  lemma SampleYMonotone(img: Image, tw: nat, th: nat, r1: nat, r2: nat)
    requires img.Valid() && tw >= 1 && th >= 1 && r1 <= r2
    ensures SampleY(img, tw, th, r1) <= SampleY(img, tw, th, r2)
  {
    NearestMonotone(img, tw, th, r1, r2);
  }

  /** floor(i * n / m) < n for every i < m. */
  lemma FloorBelow(i: nat, n: nat, m: nat)
    requires i < m && n > 0
    ensures i * n / m < n
  {
    MulLe(i, m - 1, n);
    assert (m - 1) * n + n == m * n;
    assert (i * n / m) * m <= i * n;
    assert i * n < n * m;
    MulCancelLt(i * n / m, n, m);
  }

  /** On the axis that decides the scale the clamp never fires: when the
      width dominates, every terminal column maps inside the image. */
  lemma WidthDominantNeedsNoClamp(img: Image, tw: nat, th: nat, col: nat)
    requires img.Valid() && tw >= 1 && th >= 1 && col < tw
    requires img.width * th >= img.height * tw
    ensures Nearest(img, tw, th, col) == col * img.width / tw
    ensures Nearest(img, tw, th, col) < img.width
  {
    var w := img.width;
    NearestIsDiv(img, tw, th, col);
    assert col * (w * th) == (col * w) * th;
    DivCancel(col * w, tw, th);
    FloorBelow(col, w, tw);
  }

  /** Likewise for rows when the height dominates. */
  lemma HeightDominantNeedsNoClamp(img: Image, tw: nat, th: nat, row: nat)
    requires img.Valid() && tw >= 1 && th >= 1 && row < th
    requires img.height * tw >= img.width * th
    ensures Nearest(img, tw, th, row) == row * img.height / th
    ensures Nearest(img, tw, th, row) < img.height
  {
    var h := img.height;
    NearestIsDiv(img, tw, th, row);
    assert row * (h * tw) == (row * h) * tw;
    assert tw * th == th * tw;
    DivCancel(row * h, th, tw);
    FloorBelow(row, h, th);
  }

  // ---------------------------------------------------------------------
  // Properties of the frame

  lemma {:induction false} RowStartIsProduct(row: nat, tw: nat)
    ensures RowStart(row, tw) == row * (tw + 1)
  {
    if row > 0 {
      RowStartIsProduct(row - 1, tw);
    }
  }

  lemma {:induction false} RowStartMonotone(a: nat, b: nat, tw: nat)
    requires a <= b
    ensures RowStart(a, tw) <= RowStart(b, tw)
    decreases b
  {
    if a < b {
      RowStartMonotone(a, b - 1, tw);
    }
  }

  /** A flat index below th rows splits into a row below th and an offset
      within that row (offset tw being the row's newline). */
  lemma {:induction false} SplitIndex(k: nat, tw: nat, th: nat) returns (row: nat, col: nat)
    requires k < RowStart(th, tw)
    ensures row < th && col <= tw && k == RowStart(row, tw) + col
  {
    if k < RowStart(th - 1, tw) {
      row, col := SplitIndex(k, tw, th - 1);
    } else {
      row, col := th - 1, k - RowStart(th - 1, tw);
    }
  }

  /** The offset of a flat index within its row is the index mod (tw+1). */
  lemma ColumnOf(k: nat, tw: nat, row: nat, col: nat)
    requires col <= tw && k == RowStart(row, tw) + col
    ensures k % (tw + 1) == col
  {
    RowStartIsProduct(row, tw);
    DivUnique(k, tw + 1, row, col);
  }

  lemma {:induction false} CellsAt(img: Image, tw: nat, th: nat, row: nat, n: nat, col: nat)
    requires img.Valid() && row < th && col < n <= tw
    ensures Cells(img, tw, th, row, n)[col] == Cell(img, tw, th, col, row)
  {
    if col < n - 1 {
      CellsAt(img, tw, th, row, n - 1, col);
    }
  }

  /** Joined lines of width w: |Join| counts w + 1 per line, and offset col
      of line `row` is offset col of that line followed by its newline. */
  lemma {:induction false} JoinAt(lines: seq<string>, w: nat, row: nat, col: nat)
    requires forall r :: 0 <= r < |lines| ==> |lines[r]| == w
    requires row < |lines| && col <= w
    ensures |Join(lines)| == RowStart(|lines|, w)
    ensures RowStart(row, w) + col < |Join(lines)|
    ensures Join(lines)[RowStart(row, w) + col] == (lines[row] + "\n")[col]
  {
    var n := |lines|;
    var prev := lines[..n - 1];
    assert Join(lines) == Join(prev) + (lines[n - 1] + "\n");
    assert RowStart(row + 1, w) == RowStart(row, w) + w + 1;
    if row + 1 < n {
      RowStartMonotone(row + 1, n - 1, w);
      JoinAt(prev, w, row, col);
    } else if n > 1 {
      JoinAt(prev, w, 0, 0);
    } else {
      assert prev == [];
    }
  }

  /** Cell (col, row) sits at offset col of row `row`; offset tw of each row
      holds the row's newline. */
  lemma RenderAt(img: Image, tw: nat, th: nat, row: nat, col: nat)
    requires img.Valid() && row < th && col <= tw
    ensures RowStart(row, tw) + col < |Render(img, tw, th)|
    ensures Render(img, tw, th)[RowStart(row, tw) + col] == if col < tw then Cell(img, tw, th, col, row) else '\n'
  {
    JoinAt(Lines(img, tw, th), tw, row, col);
    if col < tw {
      CellsAt(img, tw, th, row, tw, col);
    }
  }

  /** The frame holds th rows of tw glyphs and a newline each. */
  lemma RenderLength(img: Image, tw: nat, th: nat)
    requires img.Valid()
    ensures |Render(img, tw, th)| == RowStart(th, tw) == th * (tw + 1)
  {
    RowStartIsProduct(th, tw);
    if th > 0 {
      JoinAt(Lines(img, tw, th), tw, 0, 0);
    }
  }

  /** Every character of the frame lies in some row below th at some offset
      up to tw; it is the row's newline at offset tw and otherwise the glyph
      of its cell. */
  lemma RenderAtIndex(img: Image, tw: nat, th: nat, k: nat) returns (row: nat, col: nat)
    requires img.Valid() && k < |Render(img, tw, th)|
    ensures row < th && col <= tw && k == RowStart(row, tw) + col
    ensures Render(img, tw, th)[k] == if col < tw then Cell(img, tw, th, col, row) else '\n'
  {
    RenderLength(img, tw, th);
    row, col := SplitIndex(k, tw, th);
    RenderAt(img, tw, th, row, col);
  }

  /** The frame has th rows, each tw glyphs then a newline: the newlines are
      exactly the indices k with k mod (tw+1) == tw, and every other
      character is the ramp's first or last glyph. */
  lemma RenderShape(img: Image, tw: nat, th: nat)
    requires img.Valid()
    ensures |Render(img, tw, th)| == th * (tw + 1)
    ensures forall k :: 0 <= k < |Render(img, tw, th)| ==>
      (Render(img, tw, th)[k] == '\n' <==> k % (tw + 1) == tw)
    ensures forall k :: 0 <= k < |Render(img, tw, th)| && Render(img, tw, th)[k] != '\n' ==>
      Render(img, tw, th)[k] == Ramp[0] || Render(img, tw, th)[k] == Ramp[|Ramp| - 1]
  {
    RenderLength(img, tw, th);
    forall k | 0 <= k < |Render(img, tw, th)|
      ensures Render(img, tw, th)[k] == '\n' <==> k % (tw + 1) == tw
      ensures Render(img, tw, th)[k] != '\n' ==>
        Render(img, tw, th)[k] == Ramp[0] || Render(img, tw, th)[k] == Ramp[|Ramp| - 1]
    {
      var row, col := RenderAtIndex(img, tw, th, k);
      ColumnOf(k, tw, row, col);
    }
  }

  predicate Uniform(img: Image, v: byte)
    requires img.Valid()
  {
    forall y, x :: 0 <= y < img.height && 0 <= x < img.width ==> img.luma[y][x] == v
  }

  /** An all-black image draws only the first glyph. */
  lemma BlackRendersBlank(img: Image, tw: nat, th: nat)
    requires img.Valid() && Uniform(img, 0)
    ensures forall k :: 0 <= k < |Render(img, tw, th)| && Render(img, tw, th)[k] != '\n' ==>
      Render(img, tw, th)[k] == ' '
  {
    forall k | 0 <= k < |Render(img, tw, th)| && Render(img, tw, th)[k] != '\n'
      ensures Render(img, tw, th)[k] == ' '
    {
      var row, col := RenderAtIndex(img, tw, th, k);
    }
  }

  /** An all-white image draws only the last glyph. */
  lemma WhiteRendersSolid(img: Image, tw: nat, th: nat)
    requires img.Valid() && Uniform(img, 255)
    ensures forall k :: 0 <= k < |Render(img, tw, th)| && Render(img, tw, th)[k] != '\n' ==>
      Render(img, tw, th)[k] == '$'
  {
    forall k | 0 <= k < |Render(img, tw, th)| && Render(img, tw, th)[k] != '\n'
      ensures Render(img, tw, th)[k] == '$'
    {
      var row, col := RenderAtIndex(img, tw, th, k);
    }
  }

  /** A brighter sample never turns a '$' cell back into ' ' at the same
      position: the decision is monotone in luminance. */
  lemma CellMonotoneInLuma(a: Image, b: Image, tw: nat, th: nat, col: nat, row: nat)
    requires a.Valid() && b.Valid() && col < tw && row < th
    requires CellLuma(a, tw, th, col, row) <= CellLuma(b, tw, th, col, row)
    ensures Cell(a, tw, th, col, row) == '$' ==> Cell(b, tw, th, col, row) == '$'
  {
  }

  /** A 4x4 checkerboard of 2x2 blocks drawn into a 2x2 terminal (scale 2). */
  lemma CheckerboardExample()
    ensures Image(4, 4, [[0, 0, 255, 255], [0, 0, 255, 255], [255, 255, 0, 0], [255, 255, 0, 0]]).Valid()
    ensures Render(Image(4, 4, [[0, 0, 255, 255], [0, 0, 255, 255], [255, 255, 0, 0], [255, 255, 0, 0]]), 2, 2)
      == " $\n$ \n"
  {
    var img := Image(4, 4, [[0, 0, 255, 255], [0, 0, 255, 255], [255, 255, 0, 0], [255, 255, 0, 0]]);
    assert Nearest(img, 2, 2, 1) == 2;
    assert Cell(img, 2, 2, 0, 0) == ' ';
    assert Cell(img, 2, 2, 1, 0) == '$';
    assert Cell(img, 2, 2, 0, 1) == '$';
    assert Cell(img, 2, 2, 1, 1) == ' ';
    assert Cells(img, 2, 2, 0, 2) == " $";
    assert Cells(img, 2, 2, 1, 2) == "$ ";
    var lines := Lines(img, 2, 2);
    assert lines == [" $", "$ "];
    assert lines[..1] == [" $"] && [" $"][..0] == [];
  }
}
