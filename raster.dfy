/**
  The decoded image as the handler sees it: a flat buffer of bytes, three per
  pixel, rows laid out one after the other (row-major), and the pixel width
  that the decoder reports.
*/
module Raster {
  import opened Wrappers

  /** One byte of the decoded buffer. */
  type Byte = v: int | 0 <= v < 256

  /** The three channels of one pixel. */
  datatype RGB = RGB(r: Byte, g: Byte, b: Byte)

  /** Offset of the red byte of pixel (x, y): three bytes per pixel, `width` pixels per row. */
  function PixelIndex(x: int, y: int, width: nat): (idx: int)
    ensures idx % 3 == 0
  {
    (y * width + x) * 3
  }

  /**
    Reads the pixel at (x, y). The handler does no bounds check of its own: the
    read goes wrong exactly when one of the three bytes idx, idx+1, idx+2 lies
    outside the buffer (JavaScript then yields `undefined`, and formatting it throws).
  */
  function SampleRGB(data: seq<Byte>, width: nat, x: int, y: int): (c: Option<RGB>)
    ensures c.Some? <==> 0 <= PixelIndex(x, y, width) && PixelIndex(x, y, width) + 2 < |data|
    ensures c.Some? ==>
      var idx := PixelIndex(x, y, width);
      0 <= idx && idx + 2 < |data| &&
      c.value.r == data[idx] && c.value.g == data[idx + 1] && c.value.b == data[idx + 2]
  {
    var idx := PixelIndex(x, y, width);
    if 0 <= idx && idx + 2 < |data| then Some(RGB(data[idx], data[idx + 1], data[idx + 2])) else None
  }

  // ---------------------------------------------------------------------------
  // A reference picture of the buffer: a grid of rows, and its raw layout.
  // ---------------------------------------------------------------------------

  /** Every row of `rows` holds exactly `width` pixels. */
  predicate IsGrid(rows: seq<seq<RGB>>, width: nat) {
    forall i :: 0 <= i < |rows| ==> |rows[i]| == width
  }

  /** The raw bytes of one row: r, g, b of each pixel in turn. */
  function FlattenRow(row: seq<RGB>): (bytes: seq<Byte>)
    ensures |bytes| == 3 * |row|
  {
    if row == [] then [] else [row[0].r, row[0].g, row[0].b] + FlattenRow(row[1..])
  }

  /** The raw 3-channel buffer of a grid: its rows one after the other. */
  function Flatten(rows: seq<seq<RGB>>): (bytes: seq<Byte>)
    ensures |bytes| % 3 == 0
  {
    if rows == [] then [] else FlattenRow(rows[0]) + Flatten(rows[1..])
  }

  /** A grid of `height` rows of `width` pixels takes 3 * width * height bytes. */
  lemma {:induction false} FlattenLength(rows: seq<seq<RGB>>, width: nat)
    requires IsGrid(rows, width)
    ensures |Flatten(rows)| == 3 * (width * |rows|)
  {
    if rows != [] {
      FlattenLength(rows[1..], width);
      assert width * |rows| == width + width * (|rows| - 1);
    }
  }

  /** Channel bytes of pixel x sit at 3x, 3x+1, 3x+2 of its row, in r, g, b order. */
  lemma {:induction false} FlattenRowAt(row: seq<RGB>, x: nat)
    requires x < |row|
    ensures FlattenRow(row)[3 * x] == row[x].r
    ensures FlattenRow(row)[3 * x + 1] == row[x].g
    ensures FlattenRow(row)[3 * x + 2] == row[x].b
  {
    if x > 0 {
      FlattenRowAt(row[1..], x - 1);
    }
  }

  /** In the raw layout, pixel (x, y) of the grid starts at PixelIndex(x, y, width). */
  lemma {:induction false} FlattenAt(rows: seq<seq<RGB>>, width: nat, x: nat, y: nat)
    requires IsGrid(rows, width)
    requires x < width && y < |rows|
    ensures |Flatten(rows)| == 3 * (width * |rows|)
    ensures var idx := PixelIndex(x, y, width);
      0 <= idx && idx + 2 < |Flatten(rows)| &&
      Flatten(rows)[idx] == rows[y][x].r &&
      Flatten(rows)[idx + 1] == rows[y][x].g &&
      Flatten(rows)[idx + 2] == rows[y][x].b
  {
    FlattenLength(rows, width);
    FlattenLength(rows[1..], width);
    var head := FlattenRow(rows[0]);
    assert Flatten(rows) == head + Flatten(rows[1..]);
    if y == 0 {
      FlattenRowAt(rows[0], x);
    } else {
      FlattenAt(rows[1..], width, x, y - 1);
      assert PixelIndex(x, y, width) == 3 * width + PixelIndex(x, y - 1, width);
    }
  }

  /** A positive multiple of a positive number is at least that number. */
  lemma {:induction false} MulAtLeast(d: int, w: int)
    requires d >= 1 && w > 0
    ensures d * w >= w
  {
    if d > 1 {
      MulAtLeast(d - 1, w);
      assert d * w == (d - 1) * w + w;
    }
  }

  /** Integer division and remainder are determined by any decomposition with a remainder in range. */
  lemma DivModUnique(p: int, w: int, q: int, r: int)
    requires w > 0 && 0 <= r < w && p == q * w + r
    ensures p / w == q && p % w == r
  {
    var q', r' := p / w, p % w;
    assert p == q' * w + r';
    assert (q' - q) * w == r - r';
    if q' > q {
      MulAtLeast(q' - q, w);
      assert false;
    } else if q' < q {
      MulAtLeast(q - q', w);
      assert false;
    }
  }

  /** The grid pixel with flat (row-major) number p: column p mod width of row p div width. */
  function PixelAt(rows: seq<seq<RGB>>, width: nat, p: int): RGB
    requires IsGrid(rows, width) && width > 0 && 0 <= p < width * |rows|
  {
    RowOfFlat(p, width, |rows|);
    DivModParts(p, width);
    rows[p / width][p % width]
  }

  // What a read of a width × height 3-channel buffer returns for ANY coordinates
  // (x, y): it depends only on the flat pixel number p = y * width + x; it
  // succeeds exactly when p lies in [0, width * height), and then returns the
  // grid pixel with that number. Neither axis is bounds-checked on its own.

  /** The read succeeds exactly when the flat pixel number p lies inside the grid. */
  lemma SampleGridSucceeds(rows: seq<seq<RGB>>, width: nat, x: int, y: int, p: int)
    requires IsGrid(rows, width) && p == y * width + x
    ensures SampleRGB(Flatten(rows), width, x, y).Some? <==> 0 <= p < width * |rows|
  {
    FlattenLength(rows, width);
    SampleFlat(Flatten(rows), width, x, y, p, width * |rows|);
  }

  /** An in-grid flat pixel number p reads the grid pixel with that number. */
  lemma SampleGridReads(rows: seq<seq<RGB>>, width: nat, x: int, y: int, p: int)
    requires IsGrid(rows, width) && width > 0
    requires p == y * width + x && 0 <= p < width * |rows|
    ensures SampleRGB(Flatten(rows), width, x, y) == Some(PixelAt(rows, width, p))
  {
    RowOfFlat(p, width, |rows|);
    DivModParts(p, width);
    SampleAtFlat(rows, width, x, y, p, p % width, p / width);
  }

  /** Two coordinate pairs with the same flat pixel number read the same grid pixel. */
  lemma SampleAtFlat(rows: seq<seq<RGB>>, width: nat, x: int, y: int, p: int, px: int, py: int)
    requires IsGrid(rows, width)
    requires p == y * width + x && p == py * width + px
    requires 0 <= px < width && 0 <= py < |rows|
    ensures SampleRGB(Flatten(rows), width, x, y) == Some(rows[py][px])
  {
    FlattenAt(rows, width, px, py);
    FlattenLength(rows, width);
    SampleFlat(Flatten(rows), width, x, y, p, width * |rows|);
    SampleFlat(Flatten(rows), width, px, py, p, width * |rows|);
  }

  /** Euclidean division splits p into a quotient and a remainder in [0, w). */
  lemma DivModParts(p: int, w: int)
    requires w > 0
    ensures p == (p / w) * w + p % w && 0 <= p % w < w
    ensures p >= 0 ==> p / w >= 0
  {
  }

  /** A read depends on the coordinates only through the flat pixel number p. */
  lemma SampleFlat(data: seq<Byte>, width: nat, x: int, y: int, p: int, n: int)
    requires p == y * width + x && |data| == 3 * n
    ensures SampleRGB(data, width, x, y).Some? <==> 0 <= p < n
    ensures SampleRGB(data, width, x, y) ==
      if 0 <= p < n then Some(RGB(data[3 * p], data[3 * p + 1], data[3 * p + 2])) else None
  {
  }

  /** The row p div width of a flat pixel number p < width * height is below height. */
  lemma RowOfFlat(p: nat, width: nat, height: nat)
    requires width > 0 && p < width * height
    ensures p / width < height
  {
    if p / width >= height {
      MulAtLeast(p / width - height + 1, width);
      assert false;
    }
  }

  /** A station inside the grid reads exactly its own pixel. */
  lemma SampleInGrid(rows: seq<seq<RGB>>, width: nat, x: int, y: int)
    requires IsGrid(rows, width)
    requires 0 <= x < width && 0 <= y < |rows|
    ensures SampleRGB(Flatten(rows), width, x, y) == Some(rows[y][x])
  {
    FlattenAt(rows, width, x, y);
  }

  /** Bounds of the flat offset: an in-grid pixel's three bytes lie inside a 3 * width * height buffer. */
  lemma PixelIndexInGrid(x: int, y: int, width: nat, height: nat)
    requires 0 <= x < width && 0 <= y < height
    ensures 0 <= PixelIndex(x, y, width) <= 3 * width * height - 3
  {
    assert y * width <= (height - 1) * width;
    assert (height - 1) * width == height * width - width;
  }

  /** Distinct in-grid pixels own disjoint byte triples. */
  lemma PixelIndexInjective(x1: int, y1: int, x2: int, y2: int, width: nat)
    requires 0 <= x1 < width && 0 <= x2 < width && 0 <= y1 && 0 <= y2
    requires (x1, y1) != (x2, y2)
    ensures PixelIndex(x1, y1, width) != PixelIndex(x2, y2, width)
  {
    if PixelIndex(x1, y1, width) == PixelIndex(x2, y2, width) {
      assert y1 * width + x1 == y2 * width + x2;
      DivModUnique(y1 * width + x1, width, y1, x1);
      DivModUnique(y2 * width + x2, width, y2, x2);
    }
  }

  /**
    With no per-axis check, any column x reads the pixel at
    (x mod width, y + x div width): a column past the end of a row wraps into a
    later row, and a negative column into an earlier one. This holds for every
    buffer.
  */
  lemma SampleWraps(data: seq<Byte>, width: nat, x: int, y: int)
    requires width > 0
    ensures SampleRGB(data, width, x, y) == SampleRGB(data, width, x % width, y + x / width)
  {
    assert x == (x / width) * width + x % width;
    assert (y + x / width) * width == y * width + (x / width) * width;
    assert PixelIndex(x, y, width) == PixelIndex(x % width, y + x / width, width);
  }
}
