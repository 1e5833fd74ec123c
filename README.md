# 1brc-go: the single-threaded aggregator and the fixed-point decoder

This project models two sequential parts of the Go program. The program reads
lines of the form `<station>;<value>` and prints, for every station, the
least, mean and greatest value, with the station names in ascending order.

- **FixedPoint** (`fixedpoint.dfy`) is the hand-written decoder of the benchmark
  `BenchmarkFloatCustom`. It reads an optional `-`, then the bytes at fixed
  offsets 0..2 (`D.D`) or 0..3 (`DD.D`). It returns the value times ten, computed
  from the character codes exactly as the Go expression does. It also models the
  benchmark's running sum over its four inputs. The decoder's two panics become a
  `Failure`: a byte read past the end of the slice, and "unexpected position"
  when there is no `.` at offset 1 or 2. `Encode` renders a scaled integer as
  text with one fractional digit. It is the decoder's inverse on `[-999, 999]`.
- **Stats** (`stats.dfy`) is the `data` record and the update that
  `parseInput` applies for each line: a first sighting inserts
  `{count 1, min = max = total = v}`, and a later one bumps the count and total,
  then lowers `min` or else raises `max`. `Aggregate` folds a sequence of parsed
  lines into the table. The lemmas say what each record then means: it holds the
  count, exact sum, least and greatest of that station's values.
- **ByteOrder** (`byteorder.dfy`) is Go's byte-wise string order. It holds a sort
  that stands in for the library sort, and the unique ascending listing of a
  set of names.
- **Processor** (`processor.dfy`) is the `processor` object. Its `result` map
  is a field. `ParseInput` is the line loop: it splits each line at the first
  `;` and records it, and the first bad line stops the loop with its error.
  `PrintResult` collects the names, sorts them and produces the writes
  `{`, `entry`, `, `, ..., `entry`, `}\n`. A ghost field `seen` holds the
  observations recorded so far. The class invariant is `result ==
  Aggregate(seen)` and that no stored key contains `;`.
- **Example** (`example.dfy`) is a worked run over three lines for two
  stations, from parsing to the exact printed text.

Values are carried as the decoder's scaled integers (the quantity times ten)
instead of Go's `float64`. The model therefore keeps `min`, `max` and `count`
as the program does, and the total exactly. Input is a sequence of lines
without their terminators. Output is the sequence of byte strings written, in
order; their concatenation is the text printed.

Three details of `go/main.go` that the model follows:
- Values are parsed with `strconv.ParseFloat` (go/main.go:68), not with the
  custom decoder; the model accepts the decoder's `-?D{1,2}.D` shape.
- A line without `;` panics on `split[1]` (go/main.go:68); here it is a
  `MissingSeparator` failure.
- `bufio.Reader.ReadLine` (go/main.go:60) delivers a final line that has no
  terminator, so that record is not lost.

## Model

| member | source | states |
|---|---|---|
| FixedPoint.Magnitude | go/perf_test.go:34-38 | When the input starts with `-`, the bytes after the sign are the input with that `-` removed; otherwise they are the input itself. |
| FixedPoint.Decode | go/perf_test.go:32-52 | Decoding succeeds exactly when the input is non-empty and its magnitude has `.` at offset 1 (3+ bytes) or at offset 2 (4+ bytes). A magnitude of 3+ bytes with `.` at neither offset fails with the unexpected-position error naming it. |
| FixedPoint.DecodeMeaning | go/perf_test.go:40-52 | The `D.D` result is `10*(f[0]-'0') + (f[2]-'0')` and the `DD.D` result is `100*(f[0]-'0') + 10*(f[1]-'0') + (f[3]-'0')`, both negated when the input had a `-`. |
| FixedPoint.ShapedDecodes | go/perf_test.go:40-52 | A digit-shaped input always decodes, to a value in `[-999, 999]` that is `<= 0` with a sign and `>= 0` without. |
| FixedPoint.TrailingBytesIgnored | go/perf_test.go:40-45 | Only the first 3 or 4 bytes after the sign are read: appending bytes (such as a newline) to a decodable input does not change its result. |
| FixedPoint.NegationSymmetric | go/perf_test.go:34-52 | Adding a leading `-` to an unsigned input does not change whether it decodes, and negates the value it decodes to. |
| FixedPoint.EncodeDecode | go/perf_test.go:40-45 | Every scaled value in `[-999, 999]` renders to an exact `-?D{1,2}.D` text that decodes back to the same value (round trip). |
| FixedPoint.EncodeSign | go/main.go:29 | A rendered value is non-empty and begins with `-` exactly when the value is negative. |
| FixedPoint.SumDecoded | go/perf_test.go:31-56 | The benchmark's inner loop adds up the decoded inputs in order. It returns the reference `Total`: the sum, or the first input's panic. |
| FixedPoint.TotalSucceeds | go/perf_test.go:31-56 | A pass of the loop completes exactly when every input decodes. |
| FixedPoint.BenchmarkInputs | go/perf_test.go:8-13 | The inputs `12.3`, `-12.3`, `2.3`, `-2.3` decode to 123, -123, 23, -23, so a pass adds 0 to the total. |
| Stats.Step | go/main.go:83-89 | A repeat sighting adds one to the count and the value to the total, never raises min nor lowers max, and either moves min or max to the value or keeps both when the value lies between them. |
| Stats.Update | go/main.go:73-90 | The keys become the old keys plus the line's name. A new name gets `{count 1, min = max = total = v}`, a known one the step of its old record, and every other record is unchanged. |
| Stats.NamesSnoc | go/main.go:73-81 | The names of a sequence of lines are the names of all but the last line, plus the last line's name. |
| Stats.Aggregate | go/main.go:57-92 | The table folded from a sequence of lines holds exactly the names of those lines. |
| Stats.UpdateLeavesOthers | go/main.go:73-90 | Recording a line for one station neither adds, removes nor changes any other station's record. |
| Stats.StepMinMax | go/main.go:85-89 | With `min <= max`, the `if`/`else if` on a repeat sighting leaves exactly `min(min, v)` and `max(max, v)`, so the `else if` loses nothing. |
| Stats.StepConsistent | go/main.go:83-90 | A repeat sighting keeps a record consistent: `count >= 1`, `min <= max` and `count*min <= total <= count*max`. |
| Stats.UpdateConsistent | go/main.go:73-90 | Inserting or updating a record keeps every record of the table consistent. |
| Stats.SummaryStep | go/main.go:83-90 | If a record is the exact statistic of a station's values so far, it is still exact after one more value is recorded. |
| Stats.AggregateSummarises | go/main.go:57-92 | After any sequence of lines, a station is in the table exactly when some line names it. Its count is the number of its lines and its total their exact sum. Its min and max are values seen for it and bound every one of them. |
| Stats.SummaryConsistent | go/main.go:21-26 | An exact statistic of a non-empty list of values has `count >= 1`, `min <= max` and its mean between them. |
| Stats.AggregateConsistent | go/main.go:57-92 | Every record of every table built by the line loop is consistent. |
| Stats.RecordBounds | go/main.go:85-89 | When every line's value lies in `[lo, hi]`, every record's min and max lie in `[lo, hi]` too. |
| Stats.AggregateKeys | go/main.go:73-81 | Every stored station name is the name of some line. |
| ByteOrder.BelowReflexive | go/main.go:99 | Byte-wise order is reflexive. |
| ByteOrder.BelowTotal | go/main.go:99 | Byte-wise order is total: of any two names one comes no later than the other. |
| ByteOrder.BelowTransitive | go/main.go:99 | Byte-wise order is transitive. |
| ByteOrder.BelowAntisymmetric | go/main.go:99 | Byte-wise order is antisymmetric: two names each no later than the other are equal. |
| ByteOrder.Insert | go/main.go:99 | Inserting a name into an ordered list keeps it ordered and adds exactly that name. |
| ByteOrder.Sort | go/main.go:99 | The sort returns an ordered permutation of its input. |
| ByteOrder.SortedDistinct | go/main.go:95-99 | An ordered list holding each name at most once is strictly ascending. |
| ByteOrder.ListingUnique | go/main.go:95-99 | Two strictly ascending lists of the same names are equal, so the printed order of a table does not depend on map iteration order. |
| ByteOrder.Enumerate | go/main.go:95-98 | Collecting the map's names gives a list holding each name exactly once. |
| ByteOrder.SortedKeys | go/main.go:95-99 | The listing of a table's names is strictly ascending, has one element per name and holds exactly the names. |
| ByteOrder.IsSortedKeys | go/main.go:95-99 | Any ordered permutation of a set of names is its listing. |
| Processor.FindSeparator | go/main.go:66 | The result is the index of the first `;` in the line (none before it), or none when the line has no `;`. |
| Processor.ParseValue | go/main.go:68-71 | A value text parses exactly when it is `-?D{1,2}.D`. It then yields the decoder's result, in `[-999, 999]`. |
| Processor.ParseLine | go/main.go:66-71 | On success the key is the bytes before the first `;`, it contains no `;`, and the value is the parse of everything after it. A line with no `;` fails with `MissingSeparator`. A line with a `;` parses exactly when the text after its first `;` parses, and otherwise fails with `BadValue`. |
| Processor.ParseLineSplit | go/main.go:66-71 | A key without `;`, then `;`, then any text: the line yields that key and the decoded text when the text is `-?D{1,2}.D` (`05.3` and `-0.0` included), and a `BadValue` naming the text otherwise. |
| Processor.ParseLineRoundTrip | go/main.go:66-68 | A key without `;`, followed by `;` and a rendered value, parses back to that key and value. |
| Processor.CollectMeaning | go/main.go:59-71 | The loop over parse results from index `i` records each success in order and stops at the first failure, reporting it. |
| Processor.ScanMeaning | go/main.go:59-71 | The lines up to the first bad one are recorded in order, and that line's error is returned. With no bad line every line is recorded and no error is returned. |
| Processor.ScanAll | go/main.go:59-71 | Lines that all parse are recorded as exactly their parses, in order, with no error. |
| Processor.ScanKeys | go/main.go:66-67 | No recorded key contains `;`. |
| Processor.StoredKeysHaveNoSeparator | go/main.go:66-75 | No name stored in a table built from parsed lines contains `;`. |
| Processor.RoundQuotientNearest | go/main.go:29 | The printed mean is a nearest tenth to `total/count`, and an even one on a tie. |
| Processor.RoundQuotientSign | go/main.go:29 | The rounded mean is negative only when the total is, and a negative total never rounds to a positive mean. |
| Processor.NegativeZeroDecodes | go/main.go:29 | The text `-0.0` is an exact fixed-point text that decodes to 0. |
| Processor.FormatMean | go/main.go:29 | For `count >= 1` the mean's text begins with `-` exactly when the total is negative, so a negative mean that rounds to zero prints `-0.0` as `%.1f` does. When the rounded mean is in `[-999, 999]` the text is exact and decodes to it. |
| Processor.MeanInRange | go/main.go:29 | The rounded mean of a consistent record lies between its min and max. |
| Processor.MeanPrints | go/main.go:29 | The printed mean of a consistent record in range is an exact fixed-point text that decodes to the rounded mean. |
| Processor.ScanValuesInRange | go/main.go:68-71 | Every recorded value lies in `[-999, 999]`. |
| Processor.PrintedMeans | go/main.go:28-30 | For every station in a table built by the loop, `count >= 1`, and the printed mean decodes to a value between min and max. |
| Processor.Entry | go/main.go:28-30 | An entry begins with the station name followed by `=`. |
| Processor.EntryFields | go/main.go:28-30 | The entry of a consistent record in range is the name, `=`, then three exact fixed-point texts separated by `/`, which decode to the min, the rounded mean and the max. |
| Processor.EntryText | go/main.go:28-30 | An entry is the name, `=`, then min, mean and max separated by `/`. |
| Processor.LeadingShape | go/main.go:101-105 | The loop's writes alternate each entry with `, `. |
| Processor.LayoutEntryAt | go/main.go:100-106 | The `k`-th entry is write `2k+1`, after `{` and the earlier entries and separators. |
| Processor.LayoutSeparatorAt | go/main.go:102-105 | Every entry but the last is followed by `, `. |
| Processor.OutputShape | go/main.go:100-107 | The writes are `{`, each entry with `, ` between consecutive entries, then `}\n`: one entry per listed name. |
| Processor.AggregateSnoc | go/main.go:73-90 | Recording one more line updates the table built from the earlier lines. |
| Processor.Processor.New | go/main.go:32-36 | A new processor holds an empty table. |
| Processor.Processor.ParseInput | go/main.go:57-92 | The table becomes the fold of the old lines plus every line up to the first bad one. The result is that line's error, or none. The class invariant is kept. |
| Processor.Processor.ParseLineInto | go/main.go:66-90 | One turn of the loop records the line's parse, or returns its error and changes nothing. |
| Processor.Processor.Record | go/main.go:73-90 | The table becomes the old table updated with the line. The insert-or-update is done in place on a copy of the record and stored back. |
| Processor.Processor.PrintResult | go/main.go:94-108 | On a non-empty table the writes are exactly `{`, every name's entry in strictly ascending name order separated by `, `, then `}\n`. |
| Processor.Processor.SortedNames | go/main.go:95-99 | Collecting the names one by one and sorting them yields the unique ascending listing of the table's names. |
| Processor.Processor.WriteEntries | go/main.go:100-107 | The counted loop writes `{`, then each entry but the last followed by `, `, then the last entry and `}\n`. |
| Example.ExampleNegativeZeroMean | go/main.go:29 | The values -0.1, 0.0 and 0.0 of one station give min -0.1, max 0.0 and total -0.1 over three lines, and the mean prints `-0.0`. |
| Example.ExampleRun | go/main.go:57-108 | The lines `Hamburg;12.0`, `Hamburg;-3.5`, `Berlin;5.2` parse without error and print exactly `{Berlin=5.2/5.2/5.2, Hamburg=-3.5/4.2/12.0}\n`. |

## Left out

- `main` (go/main.go:37-55): flag parsing, opening the file, `log.Fatal` and writing to standard output are I/O. The model takes the lines as a sequence and returns the writes.
- The reader in `parseInput` (go/main.go:58-65): `bufio.Reader.ReadLine`, its read errors other than end of input, and its splitting of lines longer than the reader's buffer (the `isPrefix` result, which the program ignores). The model takes whole lines.
- `float64` arithmetic (go/main.go:22-24): values are scaled integers, so the total is exact where Go's float sum may round. 64-bit overflow of `count` and of the total is not modelled.
- Processor.ParseValue: accepts only `-?D{1,2}.D`, the shape the decoder handles. `strconv.ParseFloat` also accepts other numerals (more digits, exponents, `+`, `Inf`); the model reports those as `BadValue`.
- Processor.RoundQuotientNearest: the mean is rounded half-to-even on the exact quotient `total/count`. Go's `%.1f` rounds the binary `float64` quotient, which can differ on ties that are not exactly representable.
- `sort.Strings` (go/main.go:99) is modelled by its contract (an ordered permutation), through an insertion sort. The library's algorithm is not modelled.
- The benchmark harness in go/perf_test.go (`b.N` loops, `b.Log`, `BenchmarkFloatStrconv`, lines 15-25, 30 and 58) is timing code and library parsing. Only one pass of the inner loop is modelled.
- go/main_test.go reads sample files from disk and is not part of this model.
- Processor.Entry: scaled integers have no negative zero. An input value `-0.0` is recorded as 0, so where Go carries a negative-zero min, max or total from such inputs (all values `-0.0`, say) and prints `-0.0`, the model prints `0.0`. A mean that is negative and rounds to zero does print `-0.0`.
- The program's concurrent engine (chunk reader, worker pool, buffer pool, FNV-1a table, merger) is not part of this model.
