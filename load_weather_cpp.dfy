/** `load_weather` in src/test_performance.cpp: read the header row, then
    one record per data row until the first row whose cell count differs
    from the header count. The file is given as its lines. */
module LoadWeatherCpp {
  import opened Wrappers
  import opened CsvFields
  import opened Weather

  /** An exception escaping `load_weather`: `stoi` or `stod` threw on a
      cell, and nothing catches it. */
  datatype LoadError = ConversionThrew

  /** `line[key]` on the row's `unordered_map`: a missing key reads as the
      empty string. */
  function Cell(line: map<string, string>, key: string): string
  {
    if key in line then line[key] else ""
  }

  /** The record built from one row's dictionary. A date that does not
      parse leaves `date` unset but keeps the record; a numeric conversion
      that throws aborts the load. */
  function PointOf<D, F>(line: map<string, string>, f: Foreign<D, F>): Option<WeatherPoint<D, F>>
  {
    var readings :- ReadReadings(line, ReadsEmpty, f.toInt, f.toDouble);
    Some(WeatherPoint(
      f.parseDate(Cell(line, "EST")),
      readings,
      EventFlags(GetlineSplit(Cell(line, "Events"), '-'))))
  }

  /** The record builder the row loop applies to each row's dictionary. */
  function PointBuilder<D, F>(f: Foreign<D, F>): map<string, string> -> Option<WeatherPoint<D, F>>
  {
    line => PointOf(line, f)
  }

  /** The row loop: each of the data rows `rows`, in order, split at commas,
      its cells stored under `headers` and the resulting dictionary handed
      to `build`, until a row whose cell count is not the header count; a
      build that throws aborts the whole load. */
  function ParseRows<P>(headers: seq<string>, rows: seq<string>, build: map<string, string> -> Option<P>)
    : Result<seq<P>, LoadError>
    decreases |rows|
  {
    if rows == [] || |GetlineSplit(rows[0], ',')| != |headers| then Success([])
    else
      match build(Zip(headers, GetlineSplit(rows[0], ',')))
      case None => Failure(ConversionThrew)
      case Some(p) =>
        var rest :- ParseRows(headers, rows[1..], build);
        Success([p] + rest)
  }

  /** The header row: the first line, or nothing when the file is empty. */
  function HeaderLine(lines: seq<string>): string
  {
    if lines == [] then "" else lines[0]
  }

  /** What `load_weather` returns for a file with lines `lines`. */
  function Load<D, F>(lines: seq<string>, f: Foreign<D, F>): Result<seq<WeatherPoint<D, F>>, LoadError>
  {
    ParseRows(GetlineSplit(HeaderLine(lines), ','), if lines == [] then [] else lines[1..], PointBuilder(f))
  }

  /** `records` followed by what loading `rest` gives. */
  function Prepend<P>(records: seq<P>, rest: Result<seq<P>, LoadError>): Result<seq<P>, LoadError>
  {
    match rest
    case Success(more) => Success(records + more)
    case Failure(e) => Failure(e)
  }

  /** The record-building part of the row loop's body, statement by
      statement. */
  method BuildPoint<D, F>(line: map<string, string>, f: Foreign<D, F>) returns (p: Option<WeatherPoint<D, F>>)
    ensures p == PointOf(line, f)
  {
    // strptime: a failure prints "parse error" and leaves the date unset
    var date := f.parseDate(Cell(line, "EST"));
    var readings := ReadReadings(line, ReadsEmpty, f.toInt, f.toDouble);
    if readings.None? {
      return None;
    }
    var tokens := Split(Cell(line, "Events"), '-');
    var events := SetEventFlags(tokens);
    p := Some(WeatherPoint(date, readings.value, events));
  }

  /** `load_weather` over the lines of the file: the header line, then the
      row loop. */
  method LoadWeather<D, F>(lines: seq<string>, f: Foreign<D, F>) returns (result: Result<seq<WeatherPoint<D, F>>, LoadError>)
    ensures result == Load(lines, f)
  {
    var tmp := "";
    var next := 0;
    if next < |lines| {
      tmp := lines[next];
      next := next + 1;
    }
    var headers := Split(tmp, ',');
    assert headers == GetlineSplit(HeaderLine(lines), ',');
    assert lines[next..] == if lines == [] then [] else lines[1..];
    result := ReadRows(headers, lines, next, PointBuilder(f));
  }

  /** The row loop of `load_weather`, from line `start` on, with the record
      building of its body given as `build`. */
  method ReadRows<P>(headers: seq<string>, lines: seq<string>, start: nat, build: map<string, string> -> Option<P>)
    returns (result: Result<seq<P>, LoadError>)
    requires start <= |lines|
    ensures result == ParseRows(headers, lines[start..], build)
  {
    var next := start;
    var parsed := [];
    PrependNothing(ParseRows(headers, lines[next..], build));
    while next < |lines|
      invariant start <= next <= |lines|
      invariant Prepend(parsed, ParseRows(headers, lines[next..], build)) == ParseRows(headers, lines[start..], build)
      decreases |lines| - next
    {
      var tmp := lines[next];
      next := next + 1;
      var cells := Split(tmp, ',');
      if |cells| != |headers| {
        StopRow(headers, lines, next - 1, build, parsed);
        return Success(parsed);
      }
      var line := ZipRow(headers, cells);
      var p := build(line);
      if p.None? {
        RejectRow(headers, lines, next - 1, build, parsed);
        return Failure(ConversionThrew);
      }
      AcceptRow(headers, lines, next - 1, build, parsed, p.value);
      parsed := parsed + [p.value];
    }
    EndRows(headers, lines, build, parsed);
    result := Success(parsed);
  }

  // The loop body's steps, over the data rows `rows[n..]`.

  lemma StopRow<P>(headers: seq<string>, rows: seq<string>, n: nat, build: map<string, string> -> Option<P>, parsed: seq<P>)
    requires n < |rows| && |GetlineSplit(rows[n], ',')| != |headers|
    ensures Prepend(parsed, ParseRows(headers, rows[n..], build)) == Success(parsed)
  {
    assert rows[n..][0] == rows[n];
    assert parsed + [] == parsed;
  }

  lemma RejectRow<P>(headers: seq<string>, rows: seq<string>, n: nat, build: map<string, string> -> Option<P>, parsed: seq<P>)
    requires n < |rows| && |GetlineSplit(rows[n], ',')| == |headers|
    requires build(Zip(headers, GetlineSplit(rows[n], ','))).None?
    ensures Prepend(parsed, ParseRows(headers, rows[n..], build)) == Failure(ConversionThrew)
  {
    assert rows[n..][0] == rows[n];
  }

  lemma AcceptRow<P>(headers: seq<string>, rows: seq<string>, n: nat, build: map<string, string> -> Option<P>, parsed: seq<P>, p: P)
    requires n < |rows| && |GetlineSplit(rows[n], ',')| == |headers|
    requires build(Zip(headers, GetlineSplit(rows[n], ','))) == Some(p)
    ensures Prepend(parsed, ParseRows(headers, rows[n..], build))
      == Prepend(parsed + [p], ParseRows(headers, rows[n + 1..], build))
  {
    assert rows[n..][0] == rows[n] && rows[n..][1..] == rows[n + 1..];
    var rest := ParseRows(headers, rows[n + 1..], build);
    if rest.Success? {
      assert parsed + ([p] + rest.value) == parsed + [p] + rest.value;
    }
  }

  lemma EndRows<P>(headers: seq<string>, rows: seq<string>, build: map<string, string> -> Option<P>, parsed: seq<P>)
    ensures Prepend(parsed, ParseRows(headers, rows[|rows|..], build)) == Success(parsed)
  {
    assert rows[|rows|..] == [];
    assert parsed + [] == parsed;
  }

  /** Nothing prepended leaves the result unchanged. */
  lemma PrependNothing<P>(r: Result<seq<P>, LoadError>)
    ensures Prepend([], r) == r
  {
    if r.Success? {
      assert [] + r.value == r.value;
    }
  }

  // ---------------------------------------------------------------------
  // Properties
  // ---------------------------------------------------------------------

  /** Loading stops at the first row whose cell count differs from the
      header count: that row and every later one are never read. */
  lemma {:induction false} StopsAtMismatch<P>(headers: seq<string>, rows: seq<string>, i: nat, build: map<string, string> -> Option<P>)
    requires i < |rows| && |GetlineSplit(rows[i], ',')| != |headers|
    ensures ParseRows(headers, rows, build) == ParseRows(headers, rows[..i], build)
    decreases i
  {
    if 0 < i && |GetlineSplit(rows[0], ',')| == |headers| {
      assert rows[..i][0] == rows[0];
      assert rows[..i][1..] == rows[1..][..i - 1];
      StopsAtMismatch(headers, rows[1..], i - 1, build);
    }
  }

  /** When every row has as many cells as there are headers, the load
      succeeds exactly when every row's dictionary builds, and then there is
      one record per row, in row order. */
  lemma {:induction false} OneRecordPerRow<P>(headers: seq<string>, rows: seq<string>, build: map<string, string> -> Option<P>)
    requires forall i :: 0 <= i < |rows| ==> |GetlineSplit(rows[i], ',')| == |headers|
    ensures ParseRows(headers, rows, build).Success? <==>
      forall i :: 0 <= i < |rows| ==> build(Zip(headers, GetlineSplit(rows[i], ','))).Some?
    ensures ParseRows(headers, rows, build).Success? ==>
      var records := ParseRows(headers, rows, build).value;
      |records| == |rows| &&
      forall i :: 0 <= i < |rows| ==> Some(records[i]) == build(Zip(headers, GetlineSplit(rows[i], ',')))
    decreases |rows|
  {
    if rows != [] {
      var tail := rows[1..];
      assert forall i :: 0 <= i < |tail| ==> tail[i] == rows[i + 1];
      OneRecordPerRow(headers, tail, build);
    }
  }

  /** A row's date that does not parse leaves the record in place, with its
      date unset. */
  lemma DateFailureKeepsRecord<D, F>(line: map<string, string>, f: Foreign<D, F>)
    requires f.parseDate(Cell(line, "EST")).None?
    requires ReadReadings(line, ReadsEmpty, f.toInt, f.toDouble).Some?
    ensures PointOf(line, f).Some? && PointOf(line, f).value.date.None?
  {
  }

  /** An empty or missing Events cell sets no flag. */
  lemma NoEventsNoFlags(line: map<string, string>)
    requires Cell(line, "Events") == ""
    ensures EventFlags(GetlineSplit(Cell(line, "Events"), '-')) == Events(false, false, false, false)
  {
  }

  /** An empty file yields no header and no record. */
  lemma EmptyFile<D, F>(f: Foreign<D, F>)
    ensures Load([], f) == Success([])
  {
  }
}
