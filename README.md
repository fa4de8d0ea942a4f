# niedcolor: station colour sampling

A Dafny model of the `/stations-color` handler of the niedcolor service. The
handler reads a list of seismic stations (name, latitude, longitude and a pixel
position in the published intensity image), decodes the image into a raw RGB
buffer, and answers with every station's colour as `#rrggbb` text. The model
covers the part of the handler that computes something: the `records.map`
callback (index.js:28-43). For each station it:

- takes the pixel column and row from CSV columns K and L;
- computes the flat byte offset `(y * width + x) * 3` into the raw buffer;
- reads the three bytes at that offset as red, green and blue;
- writes them as `#` plus two lower-case hex digits per channel.

Everything is pure, so the model is made of datatypes, functions and lemmas in
four modules:

- `Wrappers`: `Option` and `Result`.
- `Raster`: the byte buffer, the pixel offset and the read. `Flatten` gives a
  reference picture of the buffer, a grid of rows laid out row-major, and the
  read is proved against it.
- `Hex`: JavaScript's `toString(16)` and `padStart(2, '0')`, the colour text, and
  a reference decoder `ParseColor` that reads colour text back.
- `Stations`: the CSV record, the response element, the callback for one record,
  and the whole `map`.

The code does no bounds check, and the model keeps that. If a coordinate is
`NaN`, or one of the three channel bytes lies outside the buffer, JavaScript reads
`undefined`. The `toString` call on it then throws, and the whole request fails
with status 500 (index.js:47-49). `SampleStations` therefore fails for the
whole list, at the first failing record. It does not skip that station. A column
past the end of a row, or a negative one, is not rejected either: if the flat
offset is still inside the buffer, the read wraps into a neighbouring row
(`SampleWraps`, `ExampleRowWrap`, `ExampleNegativeColumn`).

## Model

| member | source | states |
|---|---|---|
| `Raster.PixelIndex` | index.js:31 | the byte offset of pixel (x, y) counts three bytes per pixel and `width` pixels per row, so it is always a multiple of 3 and marks the red byte of a pixel; its bounds and its link to the grid are in `PixelIndexInGrid` and `FlattenAt` |
| `Raster.Flatten` | index.js:25 | the raw buffer of a grid holds whole pixels only: its length is a multiple of 3 (3·width·height for a full grid, by `FlattenLength`) |
| `Raster.PixelIndexInGrid` | index.js:31-35 | for 0 <= x < width and 0 <= y < height the offset lies in [0, 3·width·height − 3], so the reads at idx, idx+1 and idx+2 all fall inside a 3-channel buffer of that size |
| `Raster.PixelIndexInjective` | index.js:31 | two different pixels with columns inside the row have different offsets |
| `Raster.SampleRGB` | index.js:31-35 | the read succeeds exactly when bytes idx, idx+1 and idx+2 all exist; it then returns them as r, g, b in that order |
| `Raster.FlattenRow` | index.js:25 | a row of pixels takes three bytes per pixel in the raw layout |
| `Raster.FlattenLength` | index.js:25 | a raw buffer of width × height pixels has 3·width·height bytes |
| `Raster.FlattenRowAt` | index.js:33-35 | pixel x of a row has its r, g and b bytes at 3x, 3x+1 and 3x+2 |
| `Raster.FlattenAt` | index.js:31-35 | in the raw layout of a grid, pixel (x, y) starts at offset (y·width + x)·3 and its three bytes are its r, g and b |
| `Raster.SampleGridSucceeds` | index.js:31-35 | on a width × height buffer, a read succeeds exactly when the flat pixel number y·width + x lies in [0, width·height), for any integer coordinates |
| `Raster.SampleGridReads` | index.js:31-35 | when it succeeds, the read returns the grid pixel with flat number y·width + x, at column p mod width of row p div width |
| `Raster.SampleInGrid` | index.js:31-35 | a station inside the grid reads exactly its own pixel `rows[y][x]` |
| `Raster.SampleWraps` | index.js:31 | with no per-axis check, reading (x, y) for any integer column is reading (x mod width, y + x div width): a column past the row's end wraps into a later row and a negative column into an earlier one |
| `Hex.HexDigit` | index.js:41 | every digit `toString(16)` writes is a lower-case hex digit that decodes back to its value |
| `Hex.ToHexString` | index.js:41 | `toString(16)` writes a non-empty string of lower-case hex digits with no leading zero, and starts with '0' exactly for 0 |
| `Hex.HexValueOfToHexString` | index.js:41 | decoding the digits `toString(16)` writes gives back the number |
| `Hex.ToHexStringOfHexValue` | index.js:41 | conversely, every canonical lower-case digit string is what `toString(16)` writes for its value |
| `Hex.ToHexStringOfByte` | index.js:41 | a byte takes one hex digit below 16 and two digits (high, low) from 16 on |
| `Hex.PadStart` | index.js:41 | `padStart` gives a string of length max(target, original), ending with the original, filled in front with the fill character |
| `Hex.HexByte` | index.js:41 | a channel's text is exactly two characters, the high digit and then the low digit, zero-padded |
| `Hex.ColorHex` | index.js:41 | the colour text is '#' and then the high and low digits of r, then of g, then of b |
| `Hex.ColorHexShape` | index.js:41 | the colour text has length 7: '#' followed by six lower-case hex digits |
| `Hex.ColorHexRoundTrip` | index.js:41 | decoding each two-digit group of the colour text gives back r, g and b |
| `Hex.ParseColorInverse` | index.js:41 | every text the decoder accepts is exactly the colour text of the channels it decodes to |
| `Hex.ColorHexIff` | index.js:41 | a string is the colour text of (r, g, b) if and only if it decodes to (r, g, b) |
| `Stations.SampleStation` | index.js:29-42 | one record yields a result exactly when both coordinates parse and all three channel bytes exist; the name, latitude and longitude text are copied from columns E, J and I, and the colour text decodes to the pixel read |
| `Stations.MapOrFail` | index.js:28-43 | a `map` whose callback may throw: it succeeds exactly when every element's callback succeeds, and then keeps length and order with element i taken from element i alone; otherwise it fails at the first failing element, and every element before that one succeeded |
| `Stations.SampleStations` | index.js:28-49 | the request gives one result per record, in input order, with result i depending only on record i and the buffer; a single failing record fails the whole request, at the first failing record |
| `Stations.MapOrFailAppend` | index.js:28-43 | mapping over a concatenation is mapping over the first part, then the second, with the first failure winning and its position counted from the start |
| `Stations.SampleStationsAppend` | index.js:28-43 | sampling two record lists one after the other gives the same result as sampling their concatenation |
| `Stations.OneBadStationFailsAll` | index.js:28-49 | if any one record fails, the whole request fails, at that record or an earlier one; the station is never skipped |
| `Stations.SampleStationsInGrid` | index.js:28-43 | on the raw layout of a grid, with every station's coordinates inside the grid, the request succeeds, and station i has its own name and the colour text of `rows[y][x]` |
| `Stations.ExampleStationA` | index.js:28-43 | in the 3 × 2 example buffer a station at (1, 0) has offset 3, reads (40, 50, 60) and gets colour "#28323c" |
| `Stations.ExampleColorA` | index.js:41 | the colour text of (40, 50, 60) is "#28323c" |
| `Stations.ExampleStationBFailsAll` | index.js:31-49 | a station at (5, 5) in the 3 × 2 example fails the whole two-station request at position 1; it is not left out |
| `Stations.ExampleRowWrap` | index.js:31-35 | a station at (3, 0) in the 3-wide example reads pixel (0, 1), giving colour "#010203" |
| `Stations.ExampleNegativeColumn` | index.js:31-35 | column −1 of row 1 reads the last pixel of row 0, and column −1 of row 0 falls before the buffer and fails the request |
| `Stations.ExampleUnparsedColumn` | index.js:29-35 | a record whose column K does not parse (NaN) fails the whole request |

## Left out

- HTTP routing, `app.listen`, the JSON response and the 500 body (index.js:8-11, 45-55). The model only says whether the request succeeds with a list or fails.
- Logging the caught error with `console.error` (index.js:48).
- Reading `stations.csv` and parsing it with `csv-parse` (index.js:14-18): file I/O and a library. Records arrive already parsed as `Record` values.
- `parseInt` of columns K and L (index.js:29-30). The model takes each coordinate as either an integer or a parse failure (NaN). It does not model how `parseInt` treats whitespace, signs or trailing characters.
- `parseFloat` of columns J and I (index.js:39-40): floating point. Latitude and longitude are carried through as the columns' text.
- Fetching the hard-coded image URL and decoding it with `sharp` (index.js:21-25): network I/O and a foreign image decoder. The raw buffer and `info.width` are inputs. The read always uses a stride of three bytes, as the code does, whatever channel count the decoder produced.
- `SampleRGB`: does not model JavaScript's floating-point arithmetic for the offset. Integers are unbounded here, so offsets beyond 2^53 behave exactly rather than rounding.
- `SampleStations`: does not model the thrown `TypeError` itself. The failure records only the position of the record that caused it.
