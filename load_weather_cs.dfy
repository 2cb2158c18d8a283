/** `loadWeather` in csharp/cinqBench/Program.cs: split every line on
    commas, turn each data row of at least 23 tokens into a dictionary of
    fixed cells, then build one record per dictionary, dropping the rows
    whose record throws. The file is given as its lines. */
module LoadWeatherCs {
  import opened Wrappers
  import opened CsvFields
  import opened Weather

  /** An exception escaping `loadWeather`: `lines[0]` on a file with no
      line. */
  datatype LoadError = NoHeaderLine

  /** Rows with fewer tokens than this are skipped. */
  const MinTokens: nat := 23

  /** Every cell passed through `fix`. */
  function FixAll(cells: seq<string>): seq<string>
  {
    seq(|cells|, i requires 0 <= i < |cells| => Fix(cells[i]))
  }

  /** The dictionary of a row with tokens `tok`: the header loop stores
      `fix(tok[count])` under each header; once `count` runs past the
      tokens, indexing throws, the exception is swallowed and `count` stays,
      so every later header throws too. */
  function Dict(headers: seq<string>, tok: seq<string>): map<string, string>
  {
    Zip(headers, FixAll(tok))
  }

  /** The header loop of one row, with its swallowed exceptions. */
  method BuildDict(headers: seq<string>, tok: seq<string>) returns (dict: map<string, string>)
    ensures dict == Dict(headers, tok)
  {
    ghost var cells := FixAll(tok);
    dict := map[];
    var count := 0;
    for j := 0 to |headers|
      invariant count == Min(j, |tok|)
      invariant dict == Zip(headers, cells[..count])
    {
      if count < |tok| {
        assert cells[..count + 1][..count] == cells[..count];
        dict := dict[headers[j] := Fix(tok[count])];
        count := count + 1;
      }
      // otherwise `tok[count]` threw, and the catch block does nothing
    }
    if |cells| <= |headers| {
      assert cells[..count] == cells;
    }
  }

  /** The first loop's treatment of one data row: skipped when it has
      fewer than `MinTokens` tokens, otherwise turned into its dictionary. */
  function RowDict(headers: seq<string>): string -> Option<map<string, string>>
  {
    row =>
      var tok := SplitAll(row, ',');
      if |tok| < MinTokens then None else Some(Dict(headers, tok))
  }

  /** The body of the second loop's `try` block: the record of one
      dictionary, or `None` when any lookup, the date parse or a numeric
      conversion throws. The Events cell is split as stored, without a
      second `fix`. */
  function PointOf<D, F>(line: map<string, string>, f: Foreign<D, F>): Option<WeatherPoint<D, F>>
  {
    var est :- CellText(line, Throws, "EST");
    var date :- f.parseDate(est);
    var readings :- ReadReadings(line, Throws, f.toInt, f.toDouble);
    var events :- if "Events" in line then Some(line["Events"]) else None;
    Some(WeatherPoint(Some(date), readings, EventFlags(SplitAll(events, '-'))))
  }

  /** The values `convert` gives for `items`, in order, leaving out the items
      it fails on. */
  function Collect<L, P>(items: seq<L>, convert: L -> Option<P>): (r: seq<P>)
    ensures |r| <= |items|
  {
    if items == [] then []
    else
      var init := Collect(items[..|items| - 1], convert);
      match convert(items[|items| - 1])
      case None => init
      case Some(p) => init + [p]
  }

  /** The record converter of the second loop. */
  function Converter<D, F>(f: Foreign<D, F>): map<string, string> -> Option<WeatherPoint<D, F>>
  {
    line => PointOf(line, f)
  }

  /** What `loadWeather` returns for a file with lines `lines`. */
  function Load<D, F>(lines: seq<string>, f: Foreign<D, F>): Result<seq<WeatherPoint<D, F>>, LoadError>
  {
    if lines == [] then Failure(NoHeaderLine)
    else Success(Collect(Collect(lines[1..], RowDict(SplitAll(lines[0], ','))), Converter(f)))
  }

  /** The `try` block of the second loop, statement by statement; an
      exception leaves `None`. */
  method BuildPoint<D, F>(line: map<string, string>, f: Foreign<D, F>) returns (p: Option<WeatherPoint<D, F>>)
    ensures p == PointOf(line, f)
  {
    if "EST" !in line {
      return None;
    }
    var date := f.parseDate(Fix(line["EST"]));
    if date.None? {
      return None;
    }
    var readings := ReadReadings(line, Throws, f.toInt, f.toDouble);
    if readings.None? {
      return None;
    }
    if "Events" !in line {
      return None;
    }
    var events := SetEventFlags(SplitAll(line["Events"], '-'));
    p := Some(WeatherPoint(Some(date.value), readings.value, events));
  }

  /** `loadWeather` over the lines of the file. */
  method LoadWeather<D, F>(lines: seq<string>, f: Foreign<D, F>) returns (result: Result<seq<WeatherPoint<D, F>>, LoadError>)
    ensures result == Load(lines, f)
  {
    if |lines| == 0 {
      return Failure(NoHeaderLine);
    }
    var headers := SplitAll(lines[0], ',');
    ghost var rowDict := RowDict(headers);
    ghost var rows := lines[1..];
    var dictList := [];
    for i := 1 to |lines|
      invariant dictList == Collect(rows[..i - 1], rowDict)
    {
      assert rows[i - 1] == lines[i];
      TakeOneMore(rows, i - 1);
      CollectStep(rows[..i - 1], lines[i], rowDict);
      RowDictOf(headers, lines[i]);
      var tok := SplitAll(lines[i], ',');
      if |tok| < MinTokens {
        continue;
      }
      var dict := BuildDict(headers, tok);
      dictList := dictList + [dict];
    }
    ghost var convert := Converter(f);
    var weatherData := [];
    for k := 0 to |dictList|
      invariant weatherData == Collect(dictList[..k], convert)
    {
      TakeOneMore(dictList, k);
      CollectStep(dictList[..k], dictList[k], convert);
      var p := BuildPoint(dictList[k], f);
      ConverterOf(f, dictList[k]);
      if p.Some? {
        weatherData := weatherData + [p.value];
      }
      // otherwise the catch block prints the headers and the row is dropped
    }
    assert dictList[..|dictList|] == dictList;
    assert rows[..|lines| - 1] == rows;
    return Success(weatherData);
  }

  lemma TakeOneMore<T>(s: seq<T>, n: nat)
    requires n < |s|
    ensures s[..n + 1] == s[..n] + [s[n]]
  {
  }

  lemma CollectStep<L, P>(items: seq<L>, x: L, convert: L -> Option<P>)
    ensures convert(x).None? ==> Collect(items + [x], convert) == Collect(items, convert)
    ensures convert(x).Some? ==> Collect(items + [x], convert) == Collect(items, convert) + [convert(x).value]
  {
    assert (items + [x])[..|items|] == items;
  }

  lemma RowDictOf(headers: seq<string>, row: string)
    ensures |SplitAll(row, ',')| < MinTokens ==> RowDict(headers)(row) == None
    ensures |SplitAll(row, ',')| >= MinTokens ==> RowDict(headers)(row) == Some(Dict(headers, SplitAll(row, ',')))
  {
  }

  lemma ConverterOf<D, F>(f: Foreign<D, F>, line: map<string, string>)
    ensures Converter(f)(line) == PointOf(line, f)
  {
  }

  // ---------------------------------------------------------------------
  // Properties
  // ---------------------------------------------------------------------

  /** A row of fewer than 23 tokens leaves no trace. */
  lemma ShortRowSkipped(headers: seq<string>, a: seq<string>, row: string, b: seq<string>)
    requires |SplitAll(row, ',')| < MinTokens
    ensures Collect(a + [row] + b, RowDict(headers)) == Collect(a + b, RowDict(headers))
  {
    FailedRowDropped(a, row, b, RowDict(headers));
  }

  /** A row's dictionary holds exactly the headers that have a token, and
      every value in it is already fixed, never empty and never "T". */
  lemma DictFixed(headers: seq<string>, tok: seq<string>)
    ensures forall k :: k in Dict(headers, tok) <==> k in headers[..Min(|headers|, |tok|)]
    ensures forall k :: k in Dict(headers, tok) ==>
      Dict(headers, tok)[k] != "" && Dict(headers, tok)[k] != "T"
  {
    ZipKeys(headers, FixAll(tok));
    ZipValues(headers, FixAll(tok), s => s != "" && s != "T");
  }

  /** An empty Events token is stored fixed, as "0", and a record built
      from that dictionary sets no event flag. */
  lemma EmptyEventsNoFlags<D, F>(headers: seq<string>, tok: seq<string>, j: nat, f: Foreign<D, F>)
    requires j < |headers| && j < |tok| && headers[j] == "Events" && tok[j] == ""
    requires forall l :: j < l < Min(|headers|, |tok|) ==> headers[l] != "Events"
    ensures "Events" in Dict(headers, tok) && Dict(headers, tok)["Events"] == "0"
    ensures PointOf(Dict(headers, tok), f).Some? ==>
      PointOf(Dict(headers, tok), f).value.events == Events(false, false, false, false)
  {
    ZipLastWins(headers, FixAll(tok), j);
    FieldWhole("0", '-');
  }

  /** Rows become dictionaries, and dictionaries records, one by one and
      independently. */
  lemma {:induction false} CollectAppend<L, P>(a: seq<L>, b: seq<L>, convert: L -> Option<P>)
    ensures Collect(a + b, convert) == Collect(a, convert) + Collect(b, convert)
    decreases |b|
  {
    if b == [] {
      assert a + b == a;
    } else {
      var n := |b| - 1;
      assert (a + b)[..|a + b| - 1] == a + b[..n];
      CollectAppend(a, b[..n], convert);
    }
  }

  /** A row that is skipped, or whose record throws, is dropped, and the
      others keep their order. */
  lemma FailedRowDropped<L, P>(a: seq<L>, item: L, b: seq<L>, convert: L -> Option<P>)
    requires convert(item).None?
    ensures Collect(a + [item] + b, convert) == Collect(a + b, convert)
  {
    CollectAppend(a + [item], b, convert);
    CollectAppend(a, [item], convert);
    CollectAppend(a, b, convert);
    assert [item][..0] == [];
  }

  /** When every item converts (every row is long enough, every record
      builds), there is one value per item, in order. */
  lemma {:induction false} CollectAll<L, P>(items: seq<L>, convert: L -> Option<P>)
    requires forall i :: 0 <= i < |items| ==> convert(items[i]).Some?
    ensures |Collect(items, convert)| == |items|
    ensures forall i :: 0 <= i < |items| ==> Some(Collect(items, convert)[i]) == convert(items[i])
    decreases |items|
  {
    if items != [] {
      var init := items[..|items| - 1];
      assert forall i :: 0 <= i < |init| ==> init[i] == items[i];
      CollectAll(init, convert);
    }
  }

  /** A date that does not parse drops the row, where the C++ loader keeps
      the record with no date. */
  lemma DateFailureDropsRow<D, F>(line: map<string, string>, f: Foreign<D, F>)
    requires "EST" in line && f.parseDate(Fix(line["EST"])).None?
    ensures PointOf(line, f).None?
  {
  }

  /** Every record kept has a date. */
  lemma {:induction false} RecordsHaveDates<D, F>(dicts: seq<map<string, string>>, f: Foreign<D, F>)
    ensures forall j :: 0 <= j < |Collect(dicts, Converter(f))| ==> Collect(dicts, Converter(f))[j].date.Some?
    decreases |dicts|
  {
    if dicts != [] {
      RecordsHaveDates(dicts[..|dicts| - 1], f);
    }
  }

  /** A file with no line throws before reading anything. */
  lemma EmptyFile<D, F>(f: Foreign<D, F>)
    ensures Load([], f) == Failure(NoHeaderLine)
  {
  }
}
