# influxdb-athena-crawler, modelled in Dafny

The crawler lists an S3 bucket of CSV exports (Athena query results), pushes
every CSV file that has not been pushed yet to one or more InfluxDB servers,
and leaves a marker object beside each pushed file so that the next run skips
it. Optionally it deletes old files together with their markers. Tags and
fields of the InfluxDB points are configured with `--tag` / `--field`
options written in a small `name={key:value,...}` language.

This project models the sequential logic of that program and proves what it
promises:

- `bucket.dfy` (module `Bucket`): the classification of a listing into
  unprocessed and processed data objects by the marker-key scheme, the marker
  round trip (and a listing where it breaks), and the effects of processing
  and cleaning one object on an abstract key store that logs its requests.
- `flags.dfy` (module `Flags`): the hand-coded recognizer of the option
  regular expression, the option parser and serialiser with their round trip,
  sorted serialisation, and the `Tag` and `Field` option values as classes.
- `influxdb.dfy` (module `Influx`): the conversion of CSV rows to points, with
  its check order and fail-fast errors.
- `csv.dfy` (module `Csv`): the header/row zipping of `ParseString` over the
  record stream of Go's CSV reader, with the reader's field-count rule.
- `gostrings.dfy` (module `GoStrings`) and `wrappers.dfy` (module `Wrappers`):
  the parts of Go's `strings` package the core uses (`HasSuffix`,
  `ReplaceAll` including its behaviour on an empty pattern, single-character
  `Split`, `Join`, word characters, byte-order comparison), and
  `Option`/`Result`.

Strings are sequences of characters; Go compares strings by UTF-8 bytes,
which orders them as code points do, so `sort.Strings` is modelled by
character-wise lexicographic order. The library calls `toPoint` depends on
(`fmt.Sprintf("%v")`, `time.Parse`, `strconv.ParseBool`, `ParseFloat`, `Atoi`)
are parameters of a `Conversions` record. Download, CSV parsing, the InfluxDB
write and each store request succeed or fail as a boolean parameter of the
store methods says; the clock is the parameter `now`.

## Model

| member | source | states |
|---|---|---|
| Bucket.FilterBucketContent | main.go:110-137 | with an empty data suffix both results are empty; otherwise the two loops return exactly the classification `Classify` of the listing |
| Bucket.ClassifyMembers | main.go:119-134 | an object is processed iff it is listed, has the data suffix and some listed key with the marker suffix rewrites by `ReplaceAll(marker, markerSuffix, suffix)` to its key; unprocessed iff listed with the data suffix and no such marker; nothing without the data suffix is in either |
| Bucket.ClassifyPartition | main.go:119-134 | the two results together are, as multisets, exactly the data objects of the listing; every listed data object is in exactly one of them; each result holds only listed data objects |
| Bucket.ClassifyKeepsOrder | main.go:119-134 | both results are subsequences of the listing, in listing order |
| GoStrings.HasSuffix | main.go:120-123 | `strings.HasSuffix`: true iff the string is some stem followed by the suffix |
| GoStrings.ReplaceAll | main.go:124 | `strings.ReplaceAll` as a definition: a left-to-right scan replacing non-overlapping occurrences, and `rep` around every character for an empty pattern; what it does is stated by the four lemmas `ReplaceAllNoMatch`, `ReplaceAllLeading`, `ReplaceAllSkip` and `ReplaceAllTrailing` |
| GoStrings.ReplaceAllNoMatch | main.go:124 | a string in which a non-empty pattern occurs nowhere is returned unchanged |
| Bucket.MarkerKey | main.go:200 | the marker key of a data key whose data suffix occurs only at its end is the key with that suffix replaced by the marker suffix (the same rewrite is at main.go:241) |
| Bucket.DataKeyOf | main.go:124 | a listed key whose marker suffix occurs only at its end reads back as its stem followed by the data suffix; a key in which the marker suffix never occurs reads back unchanged |
| Bucket.MarkerRoundTrip | main.go:199-200 | the marker key written for a data key ends with the marker suffix and is rewritten back to that data key by the classification's rewrite (main.go:124), when the data suffix occurs in the key only at its end and the marker suffix occurs in the marker key only at its end |
| Bucket.MarkedObjectIsProcessed | main.go:128-133 | once the marker written for a data object is listed beside it (under the round-trip conditions), the object is classified processed and not unprocessed |
| Bucket.MarkerInsideKeyIsMissed | main.go:124 | the round-trip conditions are needed: for `processed/a.csv` with suffixes `.csv` and `processed`, the marker `processed/aprocessed` is listed, yet it reads back as `.csv/a.csv` and the data object stays unprocessed |
| Bucket.Store.ProcessObject | main.go:152-213 | download, parse, write and upload in that order; the first failing step is the error; the marker key is added only when all four succeed, any failure leaves the keys unchanged; the store sees the download, and the upload only after the first three succeed |
| Bucket.Store.CleanObject | main.go:215-256 | nothing happens unless `now - lastModified > maxAge` (strict); then the data key is deleted first and the marker key second, a failed first delete leaves the marker untouched and is the error, a failed second delete is the error |
| Flags.MatchFlagArgIsRegex | pkg/flags/flags.go:14 | the recognizer returns `(w, m)` iff `arg` is a run `w` of word characters, optionally followed by `={m}` with `m` free of newlines, which is what `^(\w*)(?:={(.*)})?$` captures; it fails iff the expression does not match |
| Flags.UnmarshalFlagMap | pkg/flags/flags.go:23-41 | the matching and item-by-item loop return exactly `ParseFlagMap(arg)` |
| Flags.ParseFlagMapOutcome | pkg/flags/flags.go:24-37 | parsing fails iff the expression does not match or some comma-separated item inside the braces lacks exactly one `:`; on success the key is the leading word-character run, and without braces or with empty braces the map is empty |
| Flags.ParseItemsSucceeds | pkg/flags/flags.go:31-37 | the items parse iff every item has exactly one `:` |
| Flags.ParseItemsKeys | pkg/flags/flags.go:31-37 | the parsed map's keys are exactly the items' keys |
| Flags.ParseItemsLastWins | pkg/flags/flags.go:31-37 | a key given by several items maps to the value of its last item |
| Flags.ParseFlagMapRejectsPercent | pkg/flags/flags_test.go:22-29 | `foo=%` does not parse |
| Flags.MapKeys | pkg/flags/flags.go:46-49 | the collected key list holds every key of the option map exactly once, in whatever order the map is ranged over |
| GoStrings.SortStrings | pkg/flags/flags.go:50 | the result is sorted in byte order and is a permutation of the input |
| Flags.SortedPermutationOfKeys | pkg/flags/flags.go:46-50 | sorting the collected keys gives the one strictly ascending list of the map's keys |
| Flags.SortedUnique | pkg/flags/flags.go:45-50 | two strictly sorted lists with the same keys are equal, so the sorted key order does not depend on map iteration order |
| Flags.MarshalFlagMap | pkg/flags/flags.go:44-61 | returns `RenderFlagMap(m)`: the bare key when the map is empty, otherwise `key={k1:v1,...}` with the keys in strictly ascending order, whatever order the map is iterated in |
| Flags.FlagRoundTrip | pkg/flags/flags.go:23-61 | parsing the serialisation of `m` gives back `m` when the key is word characters and no option key or value holds `,`, `:` or a newline |
| Flags.ParseOneOption | pkg/flags/flags.go:23-41 | `w={k:v}` parses to key `w` with the single option `k` = `v` |
| Flags.Tag.UnmarshalFlag | pkg/flags/flags.go:69-80 | on success the tag is the key and the row is the `row` option, or the key when that is absent or empty; on failure the error is returned and the tag is unchanged |
| Flags.Tag.MarshalFlag | pkg/flags/flags.go:83-90 | serialises the tag name with a `row` option only when the row is non-empty |
| Flags.TagRoundTrip | pkg/flags/flags.go:69-90 | unmarshalling a marshalled tag restores it when the row is non-empty and clean and the tag name is word characters |
| Flags.TagFromBareKey | pkg/flags/flags_test.go:30-40 | `foo` gives tag `foo` read from row `foo` |
| Flags.EmptyTagRendersEmpty | pkg/flags/flags_test.go:90-95 | an all-empty tag marshals to the empty string |
| Flags.IsValidFieldType | pkg/flags/flags.go:105-111 | true exactly for the four type names `float`, `int`, `string` and `bool`; its partner is `Influx.ConvertField`, which gives a nil value exactly for the names it rejects |
| Flags.ParseFieldOutcome | pkg/flags/flags.go:120-141 | a field parses iff the option map parses and its `type` is one of float, int, string, bool (the set of `isValid`, lines 105-111); then name and row are set as for a tag and the type is the `type` option, which is valid |
| Flags.Field.UnmarshalFlag | pkg/flags/flags.go:120-141 | on success all three of name, row and type are set as parsed; on any failure, including an invalid type, the error is returned and the field is unchanged |
| Flags.Field.MarshalFlag | pkg/flags/flags.go:144-154 | serialises the field name with `type` and `row` options only when they are non-empty |
| Flags.FieldRoundTrip | pkg/flags/flags.go:120-154 | unmarshalling a marshalled field restores it when its type is valid, its row non-empty and clean and its name word characters |
| Flags.FieldRejectsMissingType | pkg/flags/flags_test.go:155-162 | `foo` is rejected as a field: it has no type |
| Flags.FieldRejectsUnknownType | pkg/flags/flags_test.go:163-170 | `foo={type:bar}` is rejected: `bar` is not a type |
| Flags.FieldFromTypedKey | pkg/flags/flags_test.go:171-182 | `foo={type:int}` gives the int field `foo` read from row `foo` |
| Flags.EmptyFieldRendersEmpty | pkg/flags/flags_test.go:238-243 | an all-empty field marshals to the empty string |
| Influx.CollectOutcome | pkg/influxdb/influxdb.go:118-147 | collecting stops at the first failure: it succeeds iff every element does, then holds each element's value at its index, and otherwise fails with the error of the first failing element |
| Influx.ToPoint | pkg/influxdb/influxdb.go:101-150 | the time/measurement checks and the tag and field loops return exactly `PointOf` of the row |
| Influx.PointOfOutcome | pkg/influxdb/influxdb.go:108-147 | a timestamp that does not parse is the error whatever else holds; with a valid timestamp an empty measurement is the error; a row succeeds iff every tag and field row is present and every field value converts; then the point has the measurement, the parsed time, one tag per configured tag with the formatted value, and one field per configured field with the converted value, in configured order |
| Influx.PointOfMissingTag | pkg/influxdb/influxdb.go:118-122 | when time and measurement are fine, the first configured tag whose row is absent is the error |
| Influx.PointOfFirstFieldError | pkg/influxdb/influxdb.go:126-146 | when time, measurement and every tag row are fine, the first configured field whose row is absent or whose text does not convert is the error: a missing-row error or a parse error for its type and text |
| Influx.ConvertField | pkg/influxdb/influxdb.go:131-146 | conversion fails exactly for a bool, float or int field whose text does not parse, and the error names the type and the text; a bool, float or int field that parses is the parsed value; a `string` field is its text; the value is nil exactly for a type that `isValid` rejects, and that is no error |
| Influx.ToPoints | pkg/influxdb/influxdb.go:79-98 | succeeds iff every row converts; then one point per row, point i from row i; otherwise the error is that of the first failing row and no points are returned |
| Csv.Reader.Read | pkg/csv/csv.go:15-22 | yields the next record; the first record fixes the field count and a later record with another count is a field-count error for its index; at the end, a clean end of input or the syntax error the input ends with |
| Csv.ParseString | pkg/csv/csv.go:10-39 | succeeds iff the input ends cleanly and every record has the header's field count; then there is one row per record after the header, in record order, row j being record j+1 zipped with the header (no rows for empty input or a header alone); a field-count error names the first record whose width differs, never the header; a syntax error means the records before it were uniform |
| Csv.RowOfContents | pkg/csv/csv.go:31-34 | a row's keys are the header names of its columns, and a name that occurs more than once keeps its last column's value |
| Csv.RowOfDistinct | pkg/csv/csv.go:31-34 | with distinct header names every column's value is found under its own header name |

## Left out

- `parallelApply` and the multi-server `writers.WriteRecords`/`Close`: goroutine fan-out; the model is sequential.
- `main` itself: flag parsing, logger set-up, the timeout goroutine with `log.Fatal` and the single `ListObjects` call. Also its dispatch (main.go:67-103), which the model does not state: it returns early when both lists are empty; it hands only the unprocessed list to `processObject`; it hands only the processed list to `cleanObject`, and only when `--clean-objects` is set; it logs each object's error and drops it, so one failed object never fails the run. `Bucket.Store.CleanObject` does not itself check that the object is processed; only this dispatch keeps unprocessed data from being deleted.
- The AWS SDK (configuration, listing, download, upload, delete) and the InfluxDB client (`NewWriter`, `writer.WriteRecords`, `WritePoint`, `Close`): replaced by the key store with success flags and by the point values the writer would send.
- `flags.Parse` and the `Options` struct: behaviour of the go-flags library.
- `time.Parse`, `strconv` and `fmt` formatting, and floating point: opaque parameters.
- The `encoding/csv` tokenizer (quoting, separators, line ends, skipped blank lines): the input of `ParseString` is the record sequence it yields and how the input ends; that each record has at least one field is part of the record type.
- Error message texts: errors are datatype values naming the failing step or input; `Tag.UnmarshalFlag` and `Field.UnmarshalFlag` wrap the parser's error in a new message in Go, here the parser's error is returned as is.
- Influx.ToPoints: a nil rows slice and an empty one are not distinguished; both give an empty result and no error.
- Influx.PointOf: a point is the sequence of values handed to `AddTag` and `AddField`, in call order; what the point library then does with them is not modelled: neither its handling of repeated tag or field names nor its own conversion of the value given to `AddField` (such as the nil value of an unknown type).
- Bucket.Store.CleanObject: Go's `time.Since` and `time.Duration` are 64-bit nanosecond counts; the age test is on unbounded integers, so overflow is not modelled.
- GoStrings.SortStrings: `sort.Strings` sorts the slice in place with its own algorithm; only its result, the sorted permutation, is modelled, computed here by insertion into a new sequence.
- Text encoding: object keys, option arguments and CSV text are taken to be valid UTF-8. A Go string may hold any bytes, and a sequence of characters cannot represent invalid UTF-8. Byte order equals code-point order, and byte-level `HasSuffix` and `ReplaceAll` match character by character, only for valid UTF-8.
- The object size is only logged and is not part of `Object`.
