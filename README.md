# CINQ query view and weather loaders in Dafny

CINQ is a C++ library of LINQ-style queries over standard containers. Its
core type, `cinq::enumerable`, is a query view. `cinq::from(container)`
wraps a caller's container and borrows it through a begin/end cursor pair.
The view copies the elements into its own `data` vector only when an
operation needs to (`ensure_data`). `where(f)` keeps the elements that
satisfy a predicate and returns the view by value, so calls chain. The
repository's header declares only the constructor, `where`, `ensure_data`
and `from`. The behaviour of `where`, of its index-aware overload, of
`count(f)` and of `to_vector()` is fixed by the test programs.

The repository also holds a benchmark harness. It loads a CSV file of daily
weather readings in two ways:

- `load_weather` in C++, with helpers `split` and `fix`;
- `loadWeather` in C#, with its own `fix`.

The two loaders read the same file differently. They split lines
differently, treat short rows and bad cells differently, and one throws
where the other keeps going. Both are modelled.

Files, one module each:

- `wrappers.dfy`: `Option` and `Result`.
- `enumerable.dfy`: the `Enumerable` class (cursor range over the caller's
  array, `materialised` flag, owned `data`). It is specified by the
  functions `Filter`, `FilterIndexed`, `CountWhere` and `Selected`, and by
  `Traversal`, which gives the order in which a vector, a list or a
  fixed-size array is visited.
- `enumerable_scenarios.dfy`: the test programs' queries, stated for every
  container kind.
- `fields.dfy`: the C++ `split` (a `getline` loop), C#'s `String.Split`,
  their relation, and `fix`.
- `weather.dfy`: the weather record, zipping headers to cells, reading the
  numeric columns, and the event flags.
- `load_weather_cpp.dfy`, `load_weather_cs.dfy`: the two loaders.

Foreign conversions are passed in as the function fields of a `Foreign`
value, with `None` standing for a failed or throwing call. These are
`strptime`, `DateTime.ParseExact`, `stoi`, `Int32.Parse`,
`Convert.ToInt32`, `stod` and `Convert.ToDouble`. A file is given as its
sequence of lines.

Two modelling choices follow from the code:

- `where` is declared to return `enumerable<TIter>` by value
  (src/cinq_enumerable.hpp:24). `Where` therefore filters its own view
  and returns a fresh copy with the same state.
- Over a `std::array<int, N>` with fewer than `N` initialisers, the spare
  slots hold zeros, and `where` and `count` see them too
  (src/cinq_test.cpp:92-113). `Traversal` models this padding.

## Model

| member | source | states |
|---|---|---|
| Enumerables.Filter | src/cinq_enumerable.hpp:22-24 | every element `where` keeps satisfies the predicate, and none is added |
| Enumerables.FilterIndexed | src/cinq_test.cpp:71-100 | the index-aware `where` keeps at most as many elements as it is given |
| Enumerables.CountWhere | src/cinq_test.cpp:102-139 | `count(f)` is never more than the number of elements |
| Enumerables.Selected | src/cinq_enumerable.hpp:22-24 | the selected positions are in range, satisfy the predicate, ascend strictly, and include every satisfying position |
| Enumerables.Traversal | src/cinq_test.cpp:92-105 | a vector or list is visited as given; an array is visited over all its slots, the initialised values first and value-initialised elements after |
| Enumerables.Enumerable.constructor | src/cinq_enumerable.hpp:18-20 | the view borrows the whole container: cursors at both ends, nothing copied, elements = the container's |
| Enumerables.Enumerable.Copy | src/cinq_enumerable.hpp:24 | the by-value copy has the same cursors, the same owned data and the same elements |
| Enumerables.Enumerable.EnsureData | src/cinq_enumerable.hpp:27-30 | afterwards the view is materialised, `data` is the cursor range in order, a second call changes nothing, and the container is untouched |
| Enumerables.Enumerable.Where | src/cinq_enumerable.hpp:22-24 | the view's elements become exactly the old elements that satisfy the predicate, in order; the result is a fresh view with those elements; the container is untouched |
| Enumerables.Enumerable.WhereIndexed | src/cinq_test.cpp:71-100 | the view's elements become the old elements whose (element, pre-filter position) satisfies the predicate, in order |
| Enumerables.Enumerable.Count | src/cinq_test.cpp:102-139 | the count is the number of the view's elements that satisfy the predicate, read without changing anything |
| Enumerables.Enumerable.ToVector | src/cinq_test.cpp:44-48 | the vector is the view's elements, in order |
| Enumerables.From | src/cinq_enumerable.cpp:7-11 | `from` gives a fresh, unmaterialised view whose elements are the container's |
| Enumerables.FilterIndexedIsSelection | src/cinq_test.cpp:71-100 | the index-aware filter keeps exactly the elements at the selected positions, in ascending order |
| Enumerables.FilterIgnoresIndex | src/cinq_enumerable.hpp:22-24 | the plain `where` equals the index-aware one whose predicate ignores the index |
| Enumerables.FilterIsSelection | src/cinq_enumerable.hpp:22-24 | `where(p)` is the subsequence at exactly the positions where `p` holds, in original relative order |
| Enumerables.CountIsFilterLength | src/cinq_test.cpp:102-139 | `count(p)` equals the length of `where(p)` |
| Enumerables.FilterAllTrue | src/test_code.cpp:10-21 | a `where` whose predicate holds on every element returns the whole input, in order, duplicates included |
| Enumerables.FilterChain | src/cinq_enumerable.hpp:22-24 | two chained `where` calls equal one `where` with the conjunction of the predicates |
| Enumerables.FilterSnoc | src/cinq_enumerable.hpp:22-24 | filtering a sequence extended by one element extends the result by that element exactly when it satisfies the predicate |
| Enumerables.FilterAppend | src/cinq_enumerable.hpp:22-24 | filtering distributes over concatenation |
| Enumerables.FilterIndexedPrefix | src/cinq_test.cpp:71-100 | a predicate true exactly below position `k` keeps the first `min(k, length)` elements |
| Enumerables.CountAppend | src/cinq_test.cpp:102-139 | counting distributes over concatenation |
| Enumerables.CountRun | src/cinq_test.cpp:102-113 | each of `m` equal elements satisfying the predicate counts, giving `m` |
| Enumerables.TraversalIndependentOfKind | src/cinq_test.cpp:41-69 | a vector, a list and an exactly-filled array with the same values are visited identically |
| EnumerableScenarios.NewContainer | src/cinq_test.cpp:41-69 | the array handed to `from` holds the container's elements in traversal order |
| EnumerableScenarios.WherePositive | src/cinq_test.cpp:41-69 | `where(x > 0).to_vector()` over {1, 4, 6, 3, -6, 0, -3, 2} gives {1, 4, 6, 3, 2} for the vector, the list and the eight-slot array |
| EnumerableScenarios.PositiveExample | src/cinq_test.cpp:41-69 | filtering {1, 4, 6, 3, -6, 0, -3, 2} by `x > 0` gives {1, 4, 6, 3, 2} |
| EnumerableScenarios.WhereFirstThree | src/cinq_test.cpp:71-100 | `where(index <= 2)` over {0, 1, 2, 3, 4} gives {0, 1, 2} for every container kind, including arrays with spare slots |
| EnumerableScenarios.CountAtMostTwo | src/cinq_test.cpp:102-139 | `count(x <= 2)` over {0, 1, 2, 3, 4} is 3 for a vector, a list or a five-slot array, plus one per spare zero slot of a larger array |
| EnumerableScenarios.AtMostTwoExample | src/cinq_test.cpp:102-139 | three of {0, 1, 2, 3, 4} are at most 2 |
| EnumerableScenarios.WhereAlwaysTrue | src/test_code.cpp:10-21 | an always-true `where` reproduces the container in traversal order, duplicate strings included |
| CsvFields.FieldEnd | src/test_performance.cpp:144 | one `getline` stops at a delimiter, or at the end of the text when none is left |
| CsvFields.FieldEndFirst | src/test_performance.cpp:144 | no delimiter comes before the point where `getline` stops, so it stops at the first one |
| CsvFields.FieldEndUnique | src/test_performance.cpp:144 | any position with no delimiter before it and a delimiter or the end at it is where `getline` stops |
| CsvFields.After | src/test_performance.cpp:144 | the text left after a field and its delimiter is shorter than the text read |
| CsvFields.FieldAfter | src/test_performance.cpp:144 | a text holding a delimiter is its first field, the delimiter, and the rest |
| CsvFields.FieldWhole | src/test_performance.cpp:144 | a text without the delimiter is read whole as one field |
| CsvFields.FieldsOfAppend | csharp/cinqBench/Program.cs:109 | the first field of `a + d + b` is the first field of `a`, and the rest is the rest of `a` followed by `d + b`, or `b` itself |
| CsvFields.SplitAll | csharp/cinqBench/Program.cs:109 | `String.Split` yields at least one field |
| CsvFields.SplitAllFieldsFree | csharp/cinqBench/Program.cs:109 | no field of `String.Split` contains the delimiter |
| CsvFields.GetlineFieldsFree | src/test_performance.cpp:139-149 | no field of the C++ `split` contains the delimiter |
| CsvFields.Getline | src/test_performance.cpp:144 | one `getline` reads the next field and moves past its delimiter, so the fields from the old position are that field followed by the fields from the new one |
| CsvFields.Split | src/test_performance.cpp:139-149 | the `getline` loop yields exactly `GetlineSplit` of the line |
| CsvFields.SplitAllAppend | csharp/cinqBench/Program.cs:109 | splitting `a + d + b` gives the fields of `a` followed by the fields of `b` |
| CsvFields.JoinSplitAll | csharp/cinqBench/Program.cs:109 | joining the fields of `String.Split` with the delimiter restores the line |
| CsvFields.SplitAllJoin | csharp/cinqBench/Program.cs:109 | splitting the join of delimiter-free fields gives those fields back |
| CsvFields.GetlineIsSplitAllTrimmed | src/test_performance.cpp:139-149 | the C++ `split` is `String.Split` with one trailing empty field dropped |
| CsvFields.DropTrailingEmptyCons | src/test_performance.cpp:139-149 | dropping a trailing empty field commutes with putting a field in front of a non-empty list |
| CsvFields.SplitAllConsecutive | csharp/cinqBench/Program.cs:109 | two adjacent delimiters anywhere in a line give an empty `String.Split` field between the fields before and after them |
| CsvFields.DropTrailingEmptyAppend | src/test_performance.cpp:139-149 | dropping a trailing empty field leaves any fields in front of a non-empty list unchanged |
| CsvFields.SplitAllLastEmpty | csharp/cinqBench/Program.cs:109 | the last field is empty exactly when the line is empty or ends with the delimiter |
| CsvFields.GetlineJoin | src/test_performance.cpp:139-149 | a non-empty line that does not end with the delimiter is restored by joining its `split` fields |
| CsvFields.GetlineEmpty | src/test_performance.cpp:139-149 | the empty line splits into no field |
| CsvFields.GetlineTrailingDelimiter | src/test_performance.cpp:139-149 | a line ending with the delimiter splits as `String.Split` splits it without that delimiter |
| CsvFields.GetlineFirstField | src/test_performance.cpp:139-149 | a delimiter-free field followed by the delimiter is the first field of the C++ `split`, and the rest splits on its own |
| CsvFields.GetlineConsecutiveDelimiters | src/test_performance.cpp:139-149 | two adjacent delimiters anywhere in a line produce an empty field: the fields before them, then "", then the fields after |
| CsvFields.Fix | src/test_performance.cpp:151-155 | `fix` never returns "" or "T": it maps those two to "0" and leaves every other cell unchanged |
| CsvFields.FixIdempotent | csharp/cinqBench/Program.cs:91-96 | fixing twice is fixing once |
| Weather.ZipKeys | src/test_performance.cpp:172-176 | the dictionary's keys are exactly the headers that have a cell |
| Weather.ZipRow | src/test_performance.cpp:172-176 | the fill loop builds `Zip` of the headers and cells |
| Weather.ZipLastWins | src/test_performance.cpp:174 | a header holds the cell of its last occurrence |
| Weather.ZipValues | csharp/cinqBench/Program.cs:116-124 | every dictionary value is one of the cells, so a property of all cells holds of all values |
| Weather.ReadColumns | src/test_performance.cpp:183-211 | a successful column read has one value per column |
| Weather.ReadColumnsSpec | src/test_performance.cpp:183-211 | a column read succeeds exactly when every lookup and conversion does, and then holds each column's value in column order |
| Weather.ReadReadingsSucceeds | src/test_performance.cpp:183-225 | the numeric fields are read exactly when all 17 integer and all 4 double columns are found and convert |
| Weather.SetEventFlags | src/test_performance.cpp:212-223 | each flag is set exactly when some Events token names that event |
| Weather.EventFlagsIgnore | src/test_performance.cpp:216-223 | a token naming no event, or repeating one, changes no flag |
| LoadWeatherCpp.BuildPoint | src/test_performance.cpp:179-227 | the record is built as `PointOf` describes: no record when a conversion throws; an unparsable date left unset |
| LoadWeatherCpp.LoadWeather | src/test_performance.cpp:157-231 | `load_weather` returns `Load` of the file's lines: records of the rows up to the first row with the wrong cell count, or failure when a conversion throws |
| LoadWeatherCpp.ReadRows | src/test_performance.cpp:166-228 | the row loop from a given line on returns `ParseRows` of the remaining lines |
| LoadWeatherCpp.StopsAtMismatch | src/test_performance.cpp:166-171 | the first row whose cell count differs from the header count ends the load; no later row is read |
| LoadWeatherCpp.OneRecordPerRow | src/test_performance.cpp:166-228 | when all rows have the header count of cells, the load succeeds exactly when every row's record builds, with one record per row in order |
| LoadWeatherCpp.DateFailureKeepsRecord | src/test_performance.cpp:181 | an unparsable date only leaves the date unset; the record is kept |
| LoadWeatherCpp.NoEventsNoFlags | src/test_performance.cpp:212-223 | an empty or missing Events cell sets no flag |
| LoadWeatherCpp.EmptyFile | src/test_performance.cpp:162-166 | an empty file loads as no records |
| LoadWeatherCs.BuildDict | csharp/cinqBench/Program.cs:113-125 | the header loop with its swallowed index errors stores the fixed tokens under the first `min(headers, tokens)` headers |
| LoadWeatherCs.Collect | csharp/cinqBench/Program.cs:108-192 | each loop keeps no more items than it is given |
| LoadWeatherCs.BuildPoint | csharp/cinqBench/Program.cs:132-185 | the `try` block yields the record `PointOf` describes, or none when a lookup, the date or a conversion throws |
| LoadWeatherCs.LoadWeather | csharp/cinqBench/Program.cs:101-195 | `loadWeather` returns `Load` of the lines: failure on an empty file, otherwise the records of the dictionaries that convert, in order |
| LoadWeatherCs.ShortRowSkipped | csharp/cinqBench/Program.cs:110-111 | a row of fewer than 23 tokens is skipped: the dictionaries are those of the other rows, in order |
| LoadWeatherCs.DictFixed | csharp/cinqBench/Program.cs:116-124 | a row's dictionary holds exactly the headers that have a token, and no value in it is "" or "T" |
| LoadWeatherCs.EmptyEventsNoFlags | csharp/cinqBench/Program.cs:119-180 | an empty Events token is stored as "0", and the record built from that dictionary sets no event flag |
| LoadWeatherCs.CollectAppend | csharp/cinqBench/Program.cs:108-192 | rows become dictionaries, and dictionaries records, independently and in order |
| LoadWeatherCs.FailedRowDropped | csharp/cinqBench/Program.cs:186-191 | an item whose conversion throws is dropped, and the others keep their order |
| LoadWeatherCs.CollectAll | csharp/cinqBench/Program.cs:108-185 | when every row (or dictionary) converts, there is one dictionary (or record) per item, in order |
| LoadWeatherCs.DateFailureDropsRow | csharp/cinqBench/Program.cs:133 | an unparsable date drops the row |
| LoadWeatherCs.RecordsHaveDates | csharp/cinqBench/Program.cs:133 | every record kept has a date |
| LoadWeatherCs.EmptyFile | csharp/cinqBench/Program.cs:105 | a file with no line throws before reading anything |

## Left out

- `select`, `order_by`, `take`, `skip`, `concat`, `reverse`, element access, `max`, `min`, `sum` and `average` are not declared in src/cinq_enumerable.hpp and are not part of this model.
- Enumerables.Enumerable.EnsureData: the header gives no member bodies, and `data` and `ensure_data` are private (src/cinq_enumerable.hpp:27-30), so no test observes them. The copy of `[begin, end)` into `data`, in order and only on the first call, is inferred from their names. Only `where`, the index-aware `where`, `count` and `to_vector` are pinned down by src/cinq_test.cpp and src/test_code.cpp.
- Enumerables.Enumerable.Where: the returned copy shares the borrowed container with the original view. C++ copy semantics beyond that are not modelled.
- Enumerables.Filter: does not state that the result is a sub-multiset. Order-preserving selection is proved instead, by `FilterIsSelection`.
- Enumerables.Traversal: linked-list and vector iterators are modelled only by the order they visit elements in. The container is the caller's array.
- Concepts and constraints (`Predicate<TFunc>`, `Container<T>`) are compile-time checks with no run-time behaviour.
- The timing harness, test registration and test running in src/test_performance.cpp and the C# `Main` are not modelled.
- File reading is not modelled: the file is given as its lines, as `getline` and `File.ReadAllLines` deliver them.
- Date parsing and integer and floating-point conversion are parameters. Which strings they accept, and the double values, are not modelled.
- The C# catch block prints the headers, and the C++ loader prints "parse error". That output is not modelled.
- LoadWeatherCpp.PointOf: on an unparsable date, the fields `strptime` wrote before it failed are not modelled. The date is simply left unset.
- LoadWeatherCpp.ReadRows: the row loop takes the record-building block as a function argument. `LoadWeather` passes `PointBuilder(f)`, and `BuildPoint` shows that block statement by statement. LoadWeatherCpp.OneRecordPerRow and LoadWeatherCpp.StopsAtMismatch are likewise stated for any record builder.
- Weather.ReadColumns: its own contract states only the length. `ReadColumnsSpec` states the full read.
- LoadWeatherCs.PointOf and LoadWeatherCpp.PointOf: the order of conversions within a row does not matter, since any failure has the same effect. The model checks them in column order.
- csharp/cinqBench/cinqBench/Program.cs, src/test_performance.hpp and the documentation scripts are not part of this model.
