# photo2kml in Dafny

photo2kml.py turns a trip's photos into a KML map. Its `main` runs
`exiftool -c '%.7f' -GPSPosition -csv -datetimeoriginal -Model .` and reads
the CSV text exiftool prints. Each line after the header describes one photo:
the file name, the GPS position, the capture time and the camera model, all
split naively at every comma. `main` then does four things:

- it reads each record's capture time with `time.strptime(..., "%Y:%m:%d %H:%M:%S")`;
- it orders the records by capture time with Python's stable `sorted`;
- it builds one KML placemark per record in that order;
- it collects the placemarks in a folder named after the trip, "Good Trip 2020".

This project models that body of `main` (photo2kml.py lines 19-43) and proves
what it computes. The modules are:

- `Wrappers`: `Option` and `Result`.
- `Text`: the Python string operations the program uses.
  - `Split` models `str.split` with one character, and `Join` is its inverse.
  - `RemoveChar` models `str.replace(c, "")`, and `StripQuotes` applies it for both quote characters.
  - `DropPrefix` models the slice `s[2:]`.
  - `LexLess` models `<` on strings.
- `Timestamps`: capture times.
  - `Parse` models `strptime` for the fixed format, and `Format` is its inverse.
  - `TimeLess` is the order of `struct_time` values.
  - Lemmas relate that order to the string order of the fixed-width text.
- `Ordering`: `sorted(range(n), key=...)`, modelled as an insertion sort under the strict total order "earlier time, then earlier row". A uniqueness lemma shows this gives the order of any stable sort.
- `Photo2Kml`: the pipeline itself.
  - `Records` picks the lines.
  - `ParseTimes` models the comprehension, which stops at the first exception.
  - `Assemble` specifies the placemark loop, and the method `BuildFolder` runs it.
  - `Pipeline` is the whole body, and the method `Convert` runs it.
  - Lemmas state what a completed run contains and when and how a run fails.

The code's exceptions become values of `Photo2Kml.Error`:

- an `IndexError` on a missing field becomes `MissingField(row, field)`;
- the `ValueError` from `strptime` becomes `BadTimestamp(row)`.

photo2kml.py converts no coordinates, checks no ranges and substitutes no
defaults: exiftool formats the coordinates and every record is used as printed.

## Model

| member | source | states |
|---|---|---|
| Text.SplitSpec | photo2kml.py:19 | `split` yields one more piece than there are separators, no piece holds the separator, and joining the pieces with the separator gives back the text |
| Text.SplitJoin | photo2kml.py:26 | splitting the join of separator-free pieces gives back exactly those pieces, so `split` is the only such cut |
| Photo2Kml.Records | photo2kml.py:19 | `split('\n')[1:-1]` yields one record per newline minus one (none when there is no newline), and no record holds a newline |
| Photo2Kml.RecordsOfOutput | photo2kml.py:19 | a header line, newline-ended record lines and a final fragment give back exactly the record lines |
| Text.Split | photo2kml.py:19 | models `s.split(sep)` for one character: a cut at every separator, empty pieces kept, and `[""]` for the empty string. Its properties are the contracts of `Text.SplitSpec` and `Text.SplitJoin` |
| Photo2Kml.Fields | photo2kml.py:26 | the comma split of a record has at least one field |
| Timestamps.Parse | photo2kml.py:20 | an accepted capture time has the layout `YYYY:MM:DD HH:MM:SS` and every field is within the range its directive allows |
| Timestamps.Format | photo2kml.py:20 | the zero-padded text of the layout for an in-range timestamp, as exiftool prints a capture time. It always has the layout, and `Timestamps.ParseFormat` and `Timestamps.FormatParse` prove it the inverse of `Parse` |
| Timestamps.ParseFormat | photo2kml.py:20 | every in-range timestamp, written in the layout, parses back to itself |
| Timestamps.FormatParse | photo2kml.py:20 | every accepted string is the layout text of the timestamp it parses to, so `strptime` is injective here |
| Timestamps.NumberDigits | photo2kml.py:20 | reading back a zero-padded digit block gives its number |
| Timestamps.DigitsNumber | photo2kml.py:20 | writing a digit block's number at the block's width gives the block back |
| Timestamps.DigitsOrder | photo2kml.py:20-21 | zero-padded blocks of one width compare as strings exactly as their numbers compare |
| Timestamps.FormatOrder | photo2kml.py:20-21 | formatted timestamps compare as strings exactly as the timestamps compare |
| Timestamps.ParsedOrder | photo2kml.py:20-21 | for two accepted capture times, one `struct_time` is earlier exactly when its string is smaller, and they are equal exactly when the strings are |
| Timestamps.TimeLess | photo2kml.py:21 | models `<` on `struct_time`: year first, then month, day, hour, minute and second. `Timestamps.TimeLessOrder` proves it a strict total order |
| Timestamps.TimeLessOrder | photo2kml.py:21 | `struct_time` comparison is irreflexive, asymmetric, transitive and total |
| Text.LexLess | photo2kml.py:21 | models `<` on strings, by code point, a proper prefix being smaller. `Text.LexTrichotomy` proves it a strict total order |
| Text.LexTrichotomy | photo2kml.py:21 | string `<` is a strict total order: irreflexive, asymmetric, transitive and total |
| Text.LexLessSplit | photo2kml.py:21 | comparing strings compares equal-length leading blocks first and the rest on a tie |
| Photo2Kml.RowTime | photo2kml.py:20 | record `i` yields a time exactly when it has a field 3 that parses, and the time is that parse. Otherwise it raises the IndexError on field 3 when it has fewer than four fields, and the ValueError of `strptime` when it has four or more |
| Photo2Kml.RowTimes | photo2kml.py:20 | the outcome of the comprehension's step for each record, in input order |
| Photo2Kml.Collect | photo2kml.py:20 | models a list comprehension evaluated left to right, which stops at the first step that raises. `Photo2Kml.CollectSpec` and `Photo2Kml.CollectError` state its result |
| Photo2Kml.ParseTimes | photo2kml.py:20 | models `time_list`, the comprehension over every record. `Photo2Kml.ParseTimesSpec` and `Photo2Kml.ParseTimesError` state its result |
| Photo2Kml.CollectSpec | photo2kml.py:20 | a comprehension completes exactly when no step raises, and then holds each step's value at its position |
| Photo2Kml.CollectError | photo2kml.py:20 | a comprehension raises the exception of its first failing step |
| Photo2Kml.ParseTimesSpec | photo2kml.py:20 | `time_list` exists exactly when every record's time parses, and then it has one entry per record, each that record's parsed time |
| Photo2Kml.ParseTimesError | photo2kml.py:20 | the first record whose time cannot be read decides the exception |
| Ordering.Before | photo2kml.py:21 | the order `sorted` puts two rows in: earlier time first, and on equal times the earlier row first, because the sort is stable |
| Ordering.BeforeOrder | photo2kml.py:21 | "earlier time, or same time and earlier row" is a strict total order on row indices |
| Ordering.Insert | photo2kml.py:21 | inserting a new row into a stably sorted list keeps it stably sorted and adds exactly that row |
| Ordering.SortIndices | photo2kml.py:21 | the result lists each of `range(n)` exactly once, times never decrease, and rows with equal times keep their input order |
| Ordering.StableOrderUnique | photo2kml.py:21 | two stably sorted permutations of the same rows are equal, so the model's order is the order `sorted` returns |
| Ordering.PermutationOfRange | photo2kml.py:21 | a permutation of `range(n)` has length `n`, holds only indices below `n`, and holds each of them once |
| Ordering.Range | photo2kml.py:21 | models `range(n)` as a list of length `n`. `Ordering.RangeCount` states its contents |
| Ordering.RangeCount | photo2kml.py:21 | `range(n)` holds each index below `n` once and nothing else |
| Text.DropPrefix | photo2kml.py:27 | `s[2:]` is `s` without its first two characters, or empty when `s` is shorter |
| Text.RemoveChar | photo2kml.py:28-29 | models `s.replace(c, "")`. `Text.RemoveCharSpec` and `Text.RemoveCharAppend` state its result |
| Text.StripQuotes | photo2kml.py:28-29 | models `.replace('"', "").replace('\'', "")`, the clean-up of fields 1 and 2. `Text.StripQuotesSpec` states its result |
| Text.RemoveCharSpec | photo2kml.py:28-29 | `replace(c, "")` leaves no `c`, keeps every other character as often as it occurred, and leaves a string without `c` unchanged |
| Text.RemoveCharAppend | photo2kml.py:28-29 | `replace(c, "")` on a concatenation is the concatenation of the parts' replacements |
| Text.StripQuotesSpec | photo2kml.py:28-29 | the cleaned coordinate field holds no quote of either kind, keeps every other character as often as it occurred, and leaves a quote-free field unchanged |
| Photo2Kml.PlacemarkOf | photo2kml.py:31-42 | models one `KML.Placemark` built from the cleaned fields of a record with five fields. `Photo2Kml.PlacemarkOfSpec` states what it shows |
| Photo2Kml.PlacemarkOfSpec | photo2kml.py:31-42 | the placemark shows field 3 as name and Time and field 4 as Model. Trip is the trip name, and the description is fixed. Name is field 0 without its first two characters. The coordinates are the cleaned fields 2 and 1 joined by ", " and hold no quote |
| Photo2Kml.Assemble | photo2kml.py:25-43 | models the loop over the visiting order, stopping at the first IndexError. `Photo2Kml.AssembleSpec` and `Photo2Kml.AssembleError` state its result |
| Photo2Kml.AssembleSpec | photo2kml.py:23-43 | the loop completes exactly when every visited record has five fields. It then yields a folder named after the trip with one placemark per visited record, in visiting order |
| Photo2Kml.AssembleError | photo2kml.py:25-43 | the first visited record with fewer than five fields ends the loop with the IndexError for the first field it lacks |
| Photo2Kml.StopsAt | photo2kml.py:25-43 | once the first `k` records are placed, a record lacking a field ends the loop with its IndexError |
| Photo2Kml.LoopStopsAtModel | photo2kml.py:26-39 | a visited record whose time was read has four fields, so if it is the first one short of five the loop stops at `meta[4]` |
| Photo2Kml.BuildFolder | photo2kml.py:23-43 | the loop, which cleans fields 0, 1 and 2 in place and appends each placemark, computes exactly `Assemble` over the visiting order, including its errors |
| Photo2Kml.Pipeline | photo2kml.py:19-43 | models the body of `main` on exiftool's text: records, times, visiting order and loop, or the first exception. The `Photo2Kml.Pipeline` lemmas state its result |
| Photo2Kml.VisitOrder | photo2kml.py:21 | models `sort_index`, the record indices sorted by `Ordering.SortIndices` on `time_list` |
| Photo2Kml.Convert | photo2kml.py:19-43 | the body of `main` computes exactly `Pipeline` of exiftool's output |
| Photo2Kml.PipelineOk | photo2kml.py:19-43 | a completed run read every time and is the loop's result over the visiting order, which covers every record |
| Photo2Kml.PipelinePlacemarks | photo2kml.py:19-43 | a completed run has a folder named after the trip with one placemark per record. The visiting order visits each record once, and the `k`-th placemark comes from the `k`-th visited record |
| Photo2Kml.PipelineCount | photo2kml.py:19-43 | a completed run places as many placemarks as the output has newlines minus one |
| Photo2Kml.PipelineEmpty | photo2kml.py:19-23 | output with at most one newline gives an empty folder named after the trip |
| Photo2Kml.PipelineSucceeds | photo2kml.py:19-43 | a run completes exactly when every record's field 3 parses and every record has five fields |
| Photo2Kml.PipelineBadTime | photo2kml.py:20 | the first record whose time cannot be read ends the run before any placemark is built: with the IndexError on field 3 when it has fewer than four fields, otherwise with the ValueError of `strptime` |
| Photo2Kml.PipelineNoModel | photo2kml.py:20-39 | after every time was read, the first visited record with only four fields ends the run with the IndexError on field 4 |
| Photo2Kml.PipelineChronological | photo2kml.py:21-38 | in a completed run every Time value parses, and no placemark has an earlier time, or a smaller Time string, than one before it |
| Photo2Kml.PipelineStable | photo2kml.py:21-38 | placemarks with equal Time values appear in the order of their records in exiftool's output |
| Photo2Kml.PipelineFields | photo2kml.py:25-42 | each placemark of a completed run shows the fields of its record as the loop body writes them |

## Left out

- Running exiftool, on lines 17-18 and 49-54, is left out. The model starts from the text exiftool prints.
- The UTF-8 decode on line 19 is left out. The model's text is a sequence of characters.
- Serializing the folder with lxml and writing `Good Trip 2020.kml`, on lines 45-47, are left out. The model ends with the `Folder` value.
- The pykml element factory is left out. `Placemark` and `Folder` hold the values the KML elements would carry, not XML.
- Timestamps.Parse: it does not accept the lenient forms `strptime` also takes. These forms include:
  - fields with fewer digits than their width, such as `2020:5:3 7:08:09`;
  - any run of whitespace in place of the space;
  - decimal digits outside ASCII in the year, hour, minute or second, such as a fullwidth `２０２０`. `strptime`'s patterns for those fields match any Unicode digit, and `int()` reads them.

  exiftool always prints the zero-padded layout.
- Timestamps.Parse: it does not reject impossible dates, such as February 30 or year 0. `strptime` rejects them when it computes the day of the year.
- Timestamps.Timestamp: it keeps only the six fields that decide the order of `struct_time`.
- Photo2Kml.PipelineSucceeds: it is stronger than the program. lxml refuses text with a NUL or another control character in the fields on lines 33-40, so the program raises a ValueError for such a record. The model builds the placemark, so every lemma about a completed run also covers outputs on which the program stops there.
