/**
  The `records.map` callback of the `/stations-color` handler (index.js:28-43):
  each CSV record becomes a coloured station, read from the decoded image.
*/
module Stations {
  import opened Wrappers
  import opened Raster
  import opened Hex

  /**
    One parsed CSV record. `pixelX`/`pixelY` are `parseInt` of columns K and L
    (None for NaN); `latitude`/`longitude` are the text of columns J and I.
  */
  datatype Record = Record(name: string, latitude: string, longitude: string,
                           pixelX: Option<int>, pixelY: Option<int>)

  /** One element of the response: name, coordinates and the '#rrggbb' colour text. */
  datatype StationColor = StationColor(name: string, latitude: string, longitude: string, color: string)

  /** The request failed: the record at `position` had no pixel inside the buffer. */
  datatype SampleError = StationFailed(position: nat)

  /**
    The callback for one record. It yields nothing (the callback throws) when a
    coordinate is NaN or one of the three channel bytes lies outside the buffer.
  */
  function SampleStation(row: Record, data: seq<Byte>, width: nat): (out: Option<StationColor>)
    ensures out.Some? <==>
      row.pixelX.Some? && row.pixelY.Some? && SampleRGB(data, width, row.pixelX.value, row.pixelY.value).Some?
    ensures out.Some? ==>
      && row.pixelX.Some? && row.pixelY.Some?
      && out.value.name == row.name
      && out.value.latitude == row.latitude
      && out.value.longitude == row.longitude
      && ParseColor(out.value.color) == SampleRGB(data, width, row.pixelX.value, row.pixelY.value)
  {
    match (row.pixelX, row.pixelY)
    case (Some(x), Some(y)) =>
      (match SampleRGB(data, width, x, y)
       case Some(c) =>
         ColorHexRoundTrip(c.r, c.g, c.b);
         Some(StationColor(row.name, row.latitude, row.longitude, ColorHex(c.r, c.g, c.b)))
       case None => None)
    case _ => None
  }

  /**
    `xs.map(f)` where the callback may throw: the elements are processed in
    order, and the first one for which `f` yields None fails the whole map at
    its position.
  */
  function MapOrFail<T, U>(xs: seq<T>, f: T -> Option<U>): (r: Result<seq<U>, SampleError>)
    ensures r.Success? <==> forall i :: 0 <= i < |xs| ==> f(xs[i]).Some?
    ensures r.Success? ==>
      && |r.value| == |xs|
      && forall i :: 0 <= i < |xs| ==> Some(r.value[i]) == f(xs[i])
    ensures r.Failure? ==>
      && r.error.position < |xs|
      && f(xs[r.error.position]).None?
      && forall i :: 0 <= i < r.error.position ==> f(xs[i]).Some?
    decreases |xs|
  {
    if xs == [] then Success([])
    else
      var tail := xs[1..];
      match f(xs[0])
      case None => Failure(StationFailed(0))
      case Some(head) =>
        match MapOrFail(tail, f)
        case Success(rest) =>
          assert forall i :: 1 <= i < |xs| ==> xs[i] == tail[i - 1];
          Success([head] + rest)
        case Failure(e) =>
          assert xs[e.position + 1] == tail[e.position];
          assert forall i :: 1 <= i < e.position + 1 ==> xs[i] == tail[i - 1];
          Failure(StationFailed(e.position + 1))
  }

  /** Mapping over a concatenation is mapping over the first part, then over the second. */
  lemma {:induction false} MapOrFailAppend<T, U>(a: seq<T>, b: seq<T>, f: T -> Option<U>)
    ensures MapOrFail(a + b, f) == AppendResults(MapOrFail(a, f), MapOrFail(b, f), |a|)
    decreases |a|, 1
  {
    if a == [] {
      assert a + b == b;
      assert MapOrFail(a, f) == Success([]);
      match MapOrFail(b, f)
      case Success(v) => assert [] + v == v;
      case Failure(e) =>
    } else {
      MapOrFailAppendCons(a, b, f);
    }
  }

  /** The step of MapOrFailAppend for a non-empty first part. */
  lemma {:induction false} MapOrFailAppendCons<T, U>(a: seq<T>, b: seq<T>, f: T -> Option<U>)
    requires a != []
    ensures MapOrFail(a + b, f) == AppendResults(MapOrFail(a, f), MapOrFail(b, f), |a|)
    decreases |a|, 0
  {
    var ab := a + b;
    assert ab[0] == a[0];
    assert ab[1..] == a[1..] + b;
    MapOrFailAppend(a[1..], b, f);
    MapOrFailCons(ab, f);
    MapOrFailCons(a, f);
    PrependAppend(f(a[0]), MapOrFail(a[1..], f), MapOrFail(b, f), |a[1..]|);
  }

  /** One step of the map: the first element's callback result in front of the rest's. */
  function Prepend<U>(head: Option<U>, rest: Result<seq<U>, SampleError>): Result<seq<U>, SampleError>
  {
    match head
    case None => Failure(StationFailed(0))
    case Some(h) =>
      match rest
      case Success(v) => Success([h] + v)
      case Failure(e) => Failure(StationFailed(e.position + 1))
  }

  /** MapOrFail of a non-empty list unfolds into one Prepend step. */
  lemma MapOrFailCons<T, U>(xs: seq<T>, f: T -> Option<U>)
    requires xs != []
    ensures MapOrFail(xs, f) == Prepend(f(xs[0]), MapOrFail(xs[1..], f))
  {
  }

  /** A Prepend step in front of two combined results shifts the second one's positions by one. */
  lemma PrependAppend<U>(head: Option<U>, first: Result<seq<U>, SampleError>,
                         second: Result<seq<U>, SampleError>, offset: nat)
    ensures Prepend(head, AppendResults(first, second, offset))
         == AppendResults(Prepend(head, first), second, offset + 1)
  {
    if head.Some? && first.Success? && second.Success? {
      assert [head.value] + (first.value + second.value) == ([head.value] + first.value) + second.value;
    }
  }

  /**
    How the results of two consecutive maps combine: the first failure wins,
    its position counted from the start of the whole list.
  */
  function AppendResults<U>(first: Result<seq<U>, SampleError>, second: Result<seq<U>, SampleError>, offset: nat)
    : Result<seq<U>, SampleError>
  {
    match first
    case Failure(e) => Failure(e)
    case Success(u) =>
      match second
      case Success(v) => Success(u + v)
      case Failure(e) => Failure(StationFailed(offset + e.position))
  }

  /** The whole `records.map` of the handler: one callback per record, in order. */
  function SampleStations(records: seq<Record>, data: seq<Byte>, width: nat)
    : (r: Result<seq<StationColor>, SampleError>)
    ensures r.Success? <==> forall i :: 0 <= i < |records| ==> SampleStation(records[i], data, width).Some?
    ensures r.Success? ==>
      && |r.value| == |records|
      && forall i :: 0 <= i < |records| ==> Some(r.value[i]) == SampleStation(records[i], data, width)
    ensures r.Failure? ==>
      && r.error.position < |records|
      && SampleStation(records[r.error.position], data, width).None?
      && forall i :: 0 <= i < r.error.position ==> SampleStation(records[i], data, width).Some?
  {
    MapOrFail(records, row => SampleStation(row, data, width))
  }

  /** Sampling a concatenation of record lists is sampling the first list, then the second. */
  lemma SampleStationsAppend(a: seq<Record>, b: seq<Record>, data: seq<Byte>, width: nat)
    ensures SampleStations(a + b, data, width) ==
      AppendResults(SampleStations(a, data, width), SampleStations(b, data, width), |a|)
  {
    MapOrFailAppend(a, b, row => SampleStation(row, data, width));
  }

  /** A record that fails anywhere in the list fails the whole request, at it or at an earlier record. */
  lemma OneBadStationFailsAll(records: seq<Record>, data: seq<Byte>, width: nat, i: int)
    requires 0 <= i < |records| && SampleStation(records[i], data, width).None?
    ensures SampleStations(records, data, width).Failure?
    ensures SampleStations(records, data, width).error.position <= i
  {
  }

  /** Every record has parsed coordinates inside a width × height grid. */
  predicate AllInGrid(records: seq<Record>, width: nat, height: nat) {
    forall i :: 0 <= i < |records| ==>
      && records[i].pixelX.Some? && records[i].pixelY.Some?
      && 0 <= records[i].pixelX.value < width
      && 0 <= records[i].pixelY.value < height
  }

  /**
    When the image is the raw layout of a grid and every station lies inside it,
    the request succeeds, and station i carries its name and the colour text of
    the grid pixel at its own coordinates.
  */
  lemma SampleStationsInGrid(records: seq<Record>, rows: seq<seq<RGB>>, width: nat)
    requires IsGrid(rows, width) && AllInGrid(records, width, |rows|)
    ensures var r := SampleStations(records, Flatten(rows), width);
      && r.Success? && |r.value| == |records|
      && forall i :: 0 <= i < |records| ==>
           var x, y := records[i].pixelX.value, records[i].pixelY.value;
           && r.value[i].name == records[i].name
           && r.value[i].color == ColorHex(rows[y][x].r, rows[y][x].g, rows[y][x].b)
  {
    var data := Flatten(rows);
    forall i | 0 <= i < |records|
      ensures SampleStation(records[i], data, width).Some?
      ensures var x, y := records[i].pixelX.value, records[i].pixelY.value;
        SampleStation(records[i], data, width).value.color == ColorHex(rows[y][x].r, rows[y][x].g, rows[y][x].b)
    {
      var x, y := records[i].pixelX.value, records[i].pixelY.value;
      SampleInGrid(rows, width, x, y);
    }
    var r := SampleStations(records, data, width);
    forall i | 0 <= i < |records|
      ensures var x, y := records[i].pixelX.value, records[i].pixelY.value;
        r.value[i].color == ColorHex(rows[y][x].r, rows[y][x].g, rows[y][x].b)
    {
      assert Some(r.value[i]) == SampleStation(records[i], data, width);
    }
  }

  // ---------------------------------------------------------------------------
  // Worked examples on a 3 × 2 image with rows
  // [(10,20,30), (40,50,60), (70,80,90)] and [(1,2,3), (4,5,6), (7,8,9)].
  // ---------------------------------------------------------------------------

  function ExampleImage(): seq<Byte> {
    [10, 20, 30, 40, 50, 60, 70, 80, 90, 1, 2, 3, 4, 5, 6, 7, 8, 9]
  }

  /** Station A at pixel (1, 0) reads offset 3, RGB (40, 50, 60), colour "#28323c". */
  lemma ExampleStationA()
    ensures PixelIndex(1, 0, 3) == 3
    ensures SampleRGB(ExampleImage(), 3, 1, 0) == Some(RGB(40, 50, 60))
    ensures SampleStations([Record("A", "35.0", "139.0", Some(1), Some(0))], ExampleImage(), 3)
         == Success([StationColor("A", "35.0", "139.0", "#28323c")])
  {
    var row := Record("A", "35.0", "139.0", Some(1), Some(0));
    assert PixelIndex(1, 0, 3) == 3;
    assert SampleRGB(ExampleImage(), 3, 1, 0) == Some(RGB(40, 50, 60));
    ExampleColorA();
    SingleRecord(row, ExampleImage(), 3);
  }

  /** The colour text of (40, 50, 60), channel by channel. */
  lemma ExampleColorA()
    ensures ColorHex(40, 50, 60) == "#28323c"
  {
    assert HexByte(40) == "28" by {
      assert HexDigit(2) == '2' && HexDigit(8) == '8';
    }
    assert HexByte(50) == "32" by {
      assert HexDigit(3) == '3' && HexDigit(2) == '2';
    }
    assert HexByte(60) == "3c" by {
      assert HexDigit(3) == '3' && HexDigit(12) == 'c';
    }
  }

  /** Station B at pixel (5, 5) lies outside the buffer: the whole request fails at it. */
  lemma ExampleStationBFailsAll()
    ensures SampleStations([Record("A", "35.0", "139.0", Some(1), Some(0)),
                            Record("B", "36.0", "140.0", Some(5), Some(5))], ExampleImage(), 3)
         == Failure(StationFailed(1))
  {
    var records := [Record("A", "35.0", "139.0", Some(1), Some(0)),
                    Record("B", "36.0", "140.0", Some(5), Some(5))];
    assert SampleRGB(ExampleImage(), 3, 1, 0).Some?;
    assert SampleRGB(ExampleImage(), 3, 5, 5).None?;
    assert SampleStation(records[1], ExampleImage(), 3).None?;
  }

  /** A station at (3, 0) is past the end of row 0 and reads pixel (0, 1) instead. */
  lemma ExampleRowWrap()
    ensures SampleRGB(ExampleImage(), 3, 3, 0) == Some(RGB(1, 2, 3))
    ensures SampleStations([Record("C", "35.0", "139.0", Some(3), Some(0))], ExampleImage(), 3)
         == Success([StationColor("C", "35.0", "139.0", "#010203")])
  {
    var row := Record("C", "35.0", "139.0", Some(3), Some(0));
    assert SampleRGB(ExampleImage(), 3, 3, 0) == Some(RGB(1, 2, 3));
    assert HexDigit(0) == '0' && HexDigit(1) == '1' && HexDigit(2) == '2' && HexDigit(3) == '3';
    assert ColorHex(1, 2, 3) == "#010203";
    SingleRecord(row, ExampleImage(), 3);
  }

  /** A one-record request is that record's callback result. */
  lemma SingleRecord(row: Record, data: seq<Byte>, width: nat)
    ensures SampleStations([row], data, width) ==
      match SampleStation(row, data, width)
      case Some(s) => Success([s])
      case None => Failure(StationFailed(0))
  {
    var r := SampleStations([row], data, width);
    if r.Success? {
      assert Some(r.value[0]) == SampleStation([row][0], data, width);
      assert r.value == [r.value[0]];
    }
  }

  /**
    A negative column is not rejected either: (-1, 1) reads the last pixel of
    row 0, while (-1, 0) falls before the buffer and fails the whole request.
  */
  lemma ExampleNegativeColumn()
    ensures SampleRGB(ExampleImage(), 3, -1, 1) == Some(RGB(70, 80, 90))
    ensures SampleStations([Record("E", "35.0", "139.0", Some(-1), Some(0))], ExampleImage(), 3)
         == Failure(StationFailed(0))
  {
    assert PixelIndex(-1, 1, 3) == 6;
    assert PixelIndex(-1, 0, 3) == -3;
    SingleRecord(Record("E", "35.0", "139.0", Some(-1), Some(0)), ExampleImage(), 3);
  }

  /** A record whose pixel column does not parse (NaN) fails the whole request. */
  lemma ExampleUnparsedColumn()
    ensures SampleStations([Record("D", "35.0", "139.0", None, Some(0))], ExampleImage(), 3)
         == Failure(StationFailed(0))
  {
  }
}
