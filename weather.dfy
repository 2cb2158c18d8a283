/** The weather record both benchmark loaders build from a CSV row, and the
    row-level steps they share: zipping header names to cells, reading the
    numeric columns, and setting the event flags. */
module Weather {
  import opened Wrappers
  import opened CsvFields

  /** The foreign conversions a loader hands cell text to (`strptime` or
      `DateTime.ParseExact`; `stoi`, `Int32.Parse` or `Convert.ToInt32`;
      `stod` or `Convert.ToDouble`). `None` stands for a call that fails or
      throws. `D` is the date representation, `F` the double type, whose
      values this model does not look into. */
  datatype Foreign<D, F> = Foreign(
    parseDate: string -> Option<D>,
    toInt: string -> Option<int>,
    toDouble: string -> Option<F>)

  /** The numeric fields of a record. */
  datatype Readings<F> = Readings(
    tempMax: int, tempAvg: int, tempMin: int,
    dewMax: int, dewAvg: int, dewMin: int,
    humidityMax: int, humidityAvg: int, humidityMin: int,
    pressureMax: F, pressureAvg: F, pressureMin: F,
    visibilityMax: int, visibilityAvg: int, visibilityMin: int,
    windspeedMax: int, windspeedAvg: int,
    gustspeedMax: int,
    precipitation: F,
    cloudCover: int,
    windDirection: int)

  /** The four event flags of a record. */
  datatype Events = Events(fog: bool, rain: bool, thunderstorm: bool, snow: bool)

  /** One day of weather. `date` is `None` when the date text did not parse
      and the field was left unset. */
  datatype WeatherPoint<D, F> = WeatherPoint(date: Option<D>, readings: Readings<F>, events: Events)

  /** The columns converted to integers, in the order the loaders read them. */
  const IntColumns: seq<string> := [
    "Max TemperatureF", "Mean TemperatureF", "Min TemperatureF",
    "Max Dew PointF", "MeanDew PointF", "Min DewpointF",
    "Max Humidity", "Mean Humidity", "Min Humidity",
    "Max VisibilityMiles", "Mean VisibilityMiles", "Min VisibilityMiles",
    "Max Wind SpeedMPH", "Mean Wind SpeedMPH",
    "Max Gust SpeedMPH",
    "CloudCover",
    "WindDirDegrees"]

  /** The columns converted to doubles. */
  const DoubleColumns: seq<string> := [
    "Max Sea Level PressureIn", "Mean Sea Level PressureIn", "Min Sea Level PressureIn",
    "PrecipitationIn"]

  // ---------------------------------------------------------------------
  // Header names to cells
  // ---------------------------------------------------------------------

  function Min(a: nat, b: nat): nat
  {
    if a < b then a else b
  }

  /** The dictionary built by storing `cells[i]` under `headers[i]` for
      each position `i` both have, in turn, so that a later duplicate header
      overwrites an earlier one. */
  function Zip(headers: seq<string>, cells: seq<string>): map<string, string>
    decreases |cells|
  {
    if |cells| > |headers| then Zip(headers, cells[..|headers|])
    else if cells == [] then map[]
    else
      var n := |cells| - 1;
      Zip(headers, cells[..n])[headers[n] := cells[n]]
  }

  /** The dictionary's keys are exactly the headers of the zipped
      positions. */
  lemma {:induction false} ZipKeys(headers: seq<string>, cells: seq<string>)
    ensures forall k :: k in Zip(headers, cells) <==> k in headers[..Min(|headers|, |cells|)]
    decreases |cells|
  {
    if |cells| > |headers| {
      ZipKeys(headers, cells[..|headers|]);
    } else if cells != [] {
      var n := |cells| - 1;
      ZipKeys(headers, cells[..n]);
      assert headers[..|cells|] == headers[..n] + [headers[n]];
    }
  }

  /** The dictionary fill loop of src/test_performance.cpp, which runs only
      when there are as many cells as headers. */
  method ZipRow(headers: seq<string>, cells: seq<string>) returns (line: map<string, string>)
    requires |cells| == |headers|
    ensures line == Zip(headers, cells)
  {
    line := map[];
    for i := 0 to |cells|
      invariant line == Zip(headers, cells[..i])
    {
      assert cells[..i + 1][..i] == cells[..i];
      line := line[headers[i] := cells[i]];
    }
    assert cells[..|cells|] == cells;
  }

  /** A header holds the cell of its last occurrence among the zipped
      positions. */
  lemma {:induction false} ZipLastWins(headers: seq<string>, cells: seq<string>, j: nat)
    requires j < |headers| && j < |cells|
    requires forall l :: j < l < Min(|headers|, |cells|) ==> headers[l] != headers[j]
    ensures headers[j] in Zip(headers, cells) && Zip(headers, cells)[headers[j]] == cells[j]
    decreases |cells|
  {
    if |cells| > |headers| {
      ZipLastWins(headers, cells[..|headers|], j);
    } else {
      var n := |cells| - 1;
      if j < n {
        ZipLastWins(headers, cells[..n], j);
      }
    }
  }

  /** Every value of the dictionary is one of the zipped cells, so a
      property every cell has, every value has. */
  lemma {:induction false} ZipValues(headers: seq<string>, cells: seq<string>, p: string -> bool)
    requires forall i :: 0 <= i < |cells| ==> p(cells[i])
    ensures forall k :: k in Zip(headers, cells) ==> p(Zip(headers, cells)[k])
    decreases |cells|
  {
    if |cells| > |headers| {
      ZipValues(headers, cells[..|headers|], p);
    } else if cells != [] {
      ZipValues(headers, cells[..|cells| - 1], p);
    }
  }

  // ---------------------------------------------------------------------
  // Numeric columns
  // ---------------------------------------------------------------------

  /** What looking up a header the row's dictionary lacks does: the C++
      `unordered_map::operator[]` reads an empty string, the C# `Dictionary`
      indexer throws. */
  datatype MissingKey = ReadsEmpty | Throws

  /** The text a numeric conversion is given for column `key`: the cell
      passed through `fix`, or `None` when the lookup throws. */
  function CellText(line: map<string, string>, missing: MissingKey, key: string): Option<string>
  {
    if key in line then Some(Fix(line[key]))
    else
      match missing
      case ReadsEmpty => Some(Fix(""))
      case Throws => None
  }

  /** The value in column `key`, or `None` when the lookup or the
      conversion throws. */
  function ValueOf<V>(line: map<string, string>, missing: MissingKey, convert: string -> Option<V>, key: string): Option<V>
  {
    var text :- CellText(line, missing, key);
    convert(text)
  }

  /** The values of the columns `keys`, one conversion per column; the first
      lookup or conversion that throws makes the whole read throw. */
  function ReadColumns<V>(line: map<string, string>, missing: MissingKey, convert: string -> Option<V>, keys: seq<string>)
    : (r: Option<seq<V>>)
    ensures r.Some? ==> |r.value| == |keys|
  {
    if keys == [] then Some([])
    else
      var first :- ValueOf(line, missing, convert, keys[0]);
      var rest :- ReadColumns(line, missing, convert, keys[1..]);
      Some([first] + rest)
  }

  /** A column read succeeds exactly when every column's lookup and
      conversion do, and then holds each column's value in column order. */
  lemma {:induction false} ReadColumnsSpec<V>(line: map<string, string>, missing: MissingKey, convert: string -> Option<V>, keys: seq<string>)
    ensures ReadColumns(line, missing, convert, keys).Some? <==>
      forall i :: 0 <= i < |keys| ==> ValueOf(line, missing, convert, keys[i]).Some?
    ensures ReadColumns(line, missing, convert, keys).Some? ==>
      forall i :: 0 <= i < |keys| ==> Some(ReadColumns(line, missing, convert, keys).value[i]) == ValueOf(line, missing, convert, keys[i])
  {
    if keys != [] {
      var rest := keys[1..];
      ReadColumnsSpec(line, missing, convert, rest);
      assert forall i :: 0 <= i < |rest| ==> rest[i] == keys[i + 1];
    }
  }

  /** The record's numeric fields from the integer columns' values and the
      double columns' values, each list in its column order. */
  function MakeReadings<F>(ints: seq<int>, doubles: seq<F>): Readings<F>
    requires |ints| == |IntColumns| && |doubles| == |DoubleColumns|
  {
    Readings(
      ints[0], ints[1], ints[2],
      ints[3], ints[4], ints[5],
      ints[6], ints[7], ints[8],
      doubles[0], doubles[1], doubles[2],
      ints[9], ints[10], ints[11],
      ints[12], ints[13],
      ints[14],
      doubles[3],
      ints[15],
      ints[16])
  }

  /** The numeric fields of a record, read column by column. */
  function ReadReadings<F>(line: map<string, string>, missing: MissingKey, toInt: string -> Option<int>, toDouble: string -> Option<F>)
    : Option<Readings<F>>
  {
    var ints :- ReadColumns(line, missing, toInt, IntColumns);
    var doubles :- ReadColumns(line, missing, toDouble, DoubleColumns);
    Some(MakeReadings(ints, doubles))
  }

  /** The numeric fields are read exactly when every integer and every
      double column converts. */
  lemma ReadReadingsSucceeds<F>(line: map<string, string>, missing: MissingKey, toInt: string -> Option<int>, toDouble: string -> Option<F>)
    ensures ReadReadings(line, missing, toInt, toDouble).Some? <==>
      && (forall i :: 0 <= i < |IntColumns| ==> ValueOf(line, missing, toInt, IntColumns[i]).Some?)
      && (forall i :: 0 <= i < |DoubleColumns| ==> ValueOf(line, missing, toDouble, DoubleColumns[i]).Some?)
  {
    ReadColumnsSpec(line, missing, toInt, IntColumns);
    ReadColumnsSpec(line, missing, toDouble, DoubleColumns);
  }

  // ---------------------------------------------------------------------
  // Event flags
  // ---------------------------------------------------------------------

  /** Each flag is set exactly when some token equals its event name. */
  function EventFlags(tokens: seq<string>): Events
  {
    Events("Fog" in tokens, "Rain" in tokens, "Thunderstorm" in tokens, "Snow" in tokens)
  }

  /** The flag loop of both loaders: all four flags start false, and each
      token equal to an event name sets that event's flag. */
  method SetEventFlags(tokens: seq<string>) returns (e: Events)
    ensures e == EventFlags(tokens)
  {
    var fog, rain, thunderstorm, snow := false, false, false, false;
    for i := 0 to |tokens|
      invariant fog == ("Fog" in tokens[..i])
      invariant rain == ("Rain" in tokens[..i])
      invariant thunderstorm == ("Thunderstorm" in tokens[..i])
      invariant snow == ("Snow" in tokens[..i])
    {
      assert tokens[..i + 1] == tokens[..i] + [tokens[i]];
      if tokens[i] == "Fog" { fog := true; }
      if tokens[i] == "Rain" { rain := true; }
      if tokens[i] == "Thunderstorm" { thunderstorm := true; }
      if tokens[i] == "Snow" { snow := true; }
    }
    assert tokens[..|tokens|] == tokens;
    e := Events(fog, rain, thunderstorm, snow);
  }

  /** A token that names no event, or repeats one already seen, changes no
      flag, wherever it stands. */
  lemma EventFlagsIgnore(before: seq<string>, t: string, after: seq<string>)
    requires t !in ["Fog", "Rain", "Thunderstorm", "Snow"] || t in before + after
    ensures EventFlags(before + [t] + after) == EventFlags(before + after)
  {
    var with := before + [t] + after;
    var without := before + after;
    forall name | name in ["Fog", "Rain", "Thunderstorm", "Snow"]
      ensures name in with <==> name in without
    {
      if name in with {
        var i :| 0 <= i < |with| && with[i] == name;
        if i < |before| {
          assert without[i] == name;
        } else if i > |before| {
          assert without[i - 1] == name;
        }
      }
      if name in without {
        var i :| 0 <= i < |without| && without[i] == name;
        if i < |before| {
          assert with[i] == name;
        } else {
          assert with[i + 1] == name;
        }
      }
    }
  }
}
