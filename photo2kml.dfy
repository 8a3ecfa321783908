/** The body of `main` in photo2kml.py: exiftool's CSV output in, a KML folder
    of one placemark per photo out, the placemarks ordered by capture time. */
module Photo2Kml {
  import opened Wrappers
  import opened Text
  import opened Timestamps
  import opened Ordering

  /** `trip_name`: the folder's name and every placemark's `Trip` value. */
  const TripName: string := "Good Trip 2020"

  /** The description every placemark carries. */
  const Description: string := "Photo location"

  /** One `KML.Placemark`: its name, description, point coordinates and the four
      `ExtendedData` values `Trip`, `Time`, `Model` and `Name`. */
  datatype Placemark = Placemark(
    name: string,
    description: string,
    coordinates: string,
    trip: string,
    time: string,
    model: string,
    fileName: string)

  /** `KML.Folder(KML.name(trip_name))` with the placemarks appended to it. */
  datatype Folder = Folder(name: string, placemarks: seq<Placemark>)

  /** The exception that stops `main`. `row` is the index of the line among the
      records (the header not counted). */
  datatype Error =
    | MissingField(row: nat, field: nat)  // IndexError: the line has no field `field`
    | BadTimestamp(row: nat)              // ValueError from time.strptime on field 3

  /** `metadata.split('\n')[1:-1]`: the lines between exiftool's header line and
      whatever follows the last newline. */
  function Records(text: string): (rows: seq<string>)
    ensures |rows| == if multiset(text)['\n'] == 0 then 0 else multiset(text)['\n'] - 1
    ensures forall i :: 0 <= i < |rows| ==> '\n' !in rows[i]
  {
    var lines := Split(text, '\n');
    SplitSpec(text, '\n');
    if |lines| <= 2 then [] else lines[1..|lines| - 1]
  }

  /** Output that consists of a header line and newline-terminated lines yields
      exactly those lines; so the count is the number of lines minus two. */
  lemma RecordsOfOutput(header: string, rows: seq<string>, tail: string)
    requires '\n' !in header && '\n' !in tail
    requires forall i :: 0 <= i < |rows| ==> '\n' !in rows[i]
    ensures Records(Join([header] + rows + [tail], '\n')) == rows
  {
    var p := [header] + rows + [tail];
    forall k | 0 <= k < |p| ensures '\n' !in p[k] {
      if 0 < k < |p| - 1 {
        assert p[k] == rows[k - 1];
      }
    }
    SplitJoin(p, '\n');
    assert p[1..|p| - 1] == rows;
  }

  /** `m.split(',')`: the naive comma split, which ignores CSV quoting. */
  function Fields(row: string): (f: seq<string>)
    ensures |f| >= 1
  {
    Split(row, ',')
  }

  /** `time.strptime(m.split(',')[3], "%Y:%m:%d %H:%M:%S")` for record `i`. */
  function RowTime(row: string, i: nat): (r: Result<Timestamp, Error>)
    ensures r.Ok? <==> |Fields(row)| >= 4 && Parse(Fields(row)[3]).Some?
    ensures r.Ok? ==> Some(r.value) == Parse(Fields(row)[3])
    ensures r.Err? ==> r.error == if |Fields(row)| < 4 then MissingField(i, 3) else BadTimestamp(i)
  {
    var f := Fields(row);
    if |f| < 4 then Err(MissingField(i, 3))
    else match Parse(f[3])
      case None => Err(BadTimestamp(i))
      case Some(t) => Ok(t)
  }

  /** The outcome of the comprehension's step for each record, in input order. */
  function RowTimes(rows: seq<string>): (r: seq<Result<Timestamp, Error>>)
    ensures |r| == |rows| && forall i :: 0 <= i < |rows| ==> r[i] == RowTime(rows[i], i)
  {
    seq(|rows|, i requires 0 <= i < |rows| => RowTime(rows[i], i))
  }

  /** A list comprehension evaluated left to right: the values of all steps, or
      the exception of the first step that raises one. */
  function Collect(steps: seq<Result<Timestamp, Error>>): Result<seq<Timestamp>, Error>
  {
    if |steps| == 0 then Ok([])
    else
      var n := |steps| - 1;
      match Collect(steps[..n])
      case Err(e) => Err(e)
      case Ok(ts) =>
        match steps[n]
        case Err(e) => Err(e)
        case Ok(t) => Ok(ts + [t])
  }

  /** The comprehension completes exactly when no step fails, and then holds
      the value of each step at that step's position. */
  lemma {:induction false} CollectSpec(steps: seq<Result<Timestamp, Error>>)
    ensures Collect(steps).Ok? <==> forall i :: 0 <= i < |steps| ==> steps[i].Ok?
    ensures Collect(steps).Ok? ==>
              |Collect(steps).value| == |steps| &&
              forall i :: 0 <= i < |steps| ==> Collect(steps).value[i] == steps[i].value
  {
    if |steps| > 0 {
      var n := |steps| - 1;
      var prefix := steps[..n];
      assert forall i :: 0 <= i < n ==> prefix[i] == steps[i];
      CollectSpec(prefix);
    }
  }

  /** When step `i` is the first to fail, the comprehension raises its exception. */
  lemma {:induction false} CollectError(steps: seq<Result<Timestamp, Error>>, i: nat)
    requires i < |steps| && steps[i].Err?
    requires forall j :: 0 <= j < i ==> steps[j].Ok?
    ensures Collect(steps) == Err(steps[i].error)
  {
    var n := |steps| - 1;
    var prefix := steps[..n];
    assert forall j :: 0 <= j < n ==> prefix[j] == steps[j];
    if i < n {
      CollectError(prefix, i);
    } else {
      CollectSpec(prefix);
    }
  }

  /** `time_list`: the comprehension parses the records in order and stops at
      the first one whose capture time cannot be read. */
  function ParseTimes(rows: seq<string>): Result<seq<Timestamp>, Error>
  {
    Collect(RowTimes(rows))
  }

  /** `time_list` holds one timestamp per record, each that record's field 3
      parsed, and it exists exactly when every record's field 3 parses. */
  lemma ParseTimesSpec(rows: seq<string>)
    ensures ParseTimes(rows).Ok? <==> forall i :: 0 <= i < |rows| ==> RowTime(rows[i], i).Ok?
    ensures ParseTimes(rows).Ok? ==>
              |ParseTimes(rows).value| == |rows| &&
              forall i :: 0 <= i < |rows| ==> ParseTimes(rows).value[i] == RowTime(rows[i], i).value
  {
    CollectSpec(RowTimes(rows));
  }

  /** When record `i` is the first whose capture time cannot be read, the
      comprehension raises that record's exception. */
  lemma ParseTimesError(rows: seq<string>, i: nat)
    requires i < |rows| && FirstFailure(rows, i)
    ensures ParseTimes(rows) == Err(RowTime(rows[i], i).error)
  {
    CollectError(RowTimes(rows), i);
  }

  /** Record `i` is the first whose capture time cannot be read. */
  predicate FirstFailure(rows: seq<string>, i: nat)
    requires i < |rows|
  {
    RowTime(rows[i], i).Err? && forall j :: 0 <= j < i ==> RowTime(rows[j], j).Ok?
  }

  /** One iteration of the loop: the placemark for a record split into `meta`. */
  function PlacemarkOf(meta: seq<string>): Placemark
    requires |meta| >= 5
  {
    Placemark(
      name := meta[3],
      description := Description,
      coordinates := StripQuotes(meta[2]) + ", " + StripQuotes(meta[1]),
      trip := TripName,
      time := meta[3],
      model := meta[4],
      fileName := DropPrefix(meta[0], 2))
  }

  /** Record `i` has the five fields the loop reads. */
  predicate HasAllFields(rows: seq<string>, i: nat)
    requires i < |rows|
  {
    |Fields(rows[i])| >= 5
  }

  /** The loop over the visiting order: the folder after the placemarks of
      `order` have been appended, or the IndexError that ended it. */
  function Assemble(rows: seq<string>, order: seq<nat>): Result<Folder, Error>
    requires forall k :: 0 <= k < |order| ==> order[k] < |rows|
  {
    if |order| == 0 then Ok(Folder(TripName, []))
    else
      var n := |order| - 1;
      match Assemble(rows, order[..n])
      case Err(e) => Err(e)
      case Ok(folder) =>
        var meta := Fields(rows[order[n]]);
        if |meta| < 5 then Err(MissingField(order[n], |meta|))
        else Ok(Folder(folder.name, folder.placemarks + [PlacemarkOf(meta)]))
  }

  /** The loop completes exactly when every visited record has five fields; it
      then holds one placemark per visited record, in visiting order, in a
      folder named `trip_name`. */
  lemma {:induction false} AssembleSpec(rows: seq<string>, order: seq<nat>)
    requires forall k :: 0 <= k < |order| ==> order[k] < |rows|
    ensures Assemble(rows, order).Ok? <==>
              forall k :: 0 <= k < |order| ==> HasAllFields(rows, order[k])
    ensures Assemble(rows, order).Ok? ==>
              Assemble(rows, order).value.name == TripName &&
              |Assemble(rows, order).value.placemarks| == |order| &&
              forall k :: 0 <= k < |order| ==>
                Assemble(rows, order).value.placemarks[k] == PlacemarkOf(Fields(rows[order[k]]))
  {
    if |order| > 0 {
      var n := |order| - 1;
      var prefix := order[..n];
      assert forall k :: 0 <= k < n ==> prefix[k] == order[k];
      AssembleSpec(rows, prefix);
      var pre := Assemble(rows, prefix);
      if pre.Err? {
        assert Assemble(rows, order) == pre;
        var k :| 0 <= k < n && !HasAllFields(rows, prefix[k]);
        assert !HasAllFields(rows, order[k]);
      } else if !HasAllFields(rows, order[n]) {
        assert Assemble(rows, order).Err?;
      } else {
        forall k | 0 <= k < |order| ensures HasAllFields(rows, order[k]) {
          if k < n {
            assert prefix[k] == order[k];
          }
        }
        var p := PlacemarkOf(Fields(rows[order[n]]));
        var placemarks := pre.value.placemarks + [p];
        assert Assemble(rows, order) == Ok(Folder(pre.value.name, placemarks));
        forall k | 0 <= k < |order|
          ensures placemarks[k] == PlacemarkOf(Fields(rows[order[k]]))
        {
          if k < n {
            assert placemarks[k] == pre.value.placemarks[k];
            assert prefix[k] == order[k];
          }
        }
      }
    }
  }

  /** When the `k`-th visited record is the first without five fields, the loop
      stops there with the IndexError for the first field that record lacks. */
  lemma {:induction false} AssembleError(rows: seq<string>, order: seq<nat>, k: nat)
    requires forall k :: 0 <= k < |order| ==> order[k] < |rows|
    requires k < |order| && FirstShort(rows, order, k)
    ensures Assemble(rows, order) == Err(MissingField(order[k], |Fields(rows[order[k]])|))
  {
    var n := |order| - 1;
    var prefix := order[..n];
    assert forall j :: 0 <= j < n ==> prefix[j] == order[j];
    if k < n {
      assert FirstShort(rows, prefix, k);
      AssembleError(rows, prefix, k);
    } else {
      AssembleSpec(rows, prefix);
    }
  }

  /** The `k`-th visited record is the first visited one without five fields. */
  predicate FirstShort(rows: seq<string>, order: seq<nat>, k: nat)
    requires forall k :: 0 <= k < |order| ==> order[k] < |rows|
    requires k < |order|
  {
    !HasAllFields(rows, order[k]) && forall j :: 0 <= j < k ==> HasAllFields(rows, order[j])
  }

  /** Lines 25-43: for each record in the visiting order, split it, clean
      fields 0, 1 and 2 in place, and append a placemark to the folder. */
  method BuildFolder(rows: seq<string>, order: seq<nat>) returns (r: Result<Folder, Error>)
    requires forall k :: 0 <= k < |order| ==> order[k] < |rows|
    ensures r == Assemble(rows, order)
  {
    var placemarks: seq<Placemark> := [];
    for k := 0 to |order|
      invariant Assemble(rows, order[..k]) == Ok(Folder(TripName, placemarks))
    {
      var i := order[k];
      var meta := Fields(rows[i]);
      ghost var original := meta;
      meta := meta[0 := DropPrefix(meta[0], 2)];
      if |meta| < 2 {
        StopsAt(rows, order, k);
        return Err(MissingField(i, 1));
      }
      meta := meta[1 := StripQuotes(meta[1])];
      if |meta| < 3 {
        StopsAt(rows, order, k);
        return Err(MissingField(i, 2));
      }
      meta := meta[2 := StripQuotes(meta[2])];
      if |meta| < 4 {
        StopsAt(rows, order, k);
        return Err(MissingField(i, 3));
      }
      if |meta| < 5 {
        StopsAt(rows, order, k);
        return Err(MissingField(i, 4));
      }
      placemarks := placemarks + [Placemark(
        name := meta[3],
        description := Description,
        coordinates := meta[2] + ", " + meta[1],
        trip := TripName,
        time := meta[3],
        model := meta[4],
        fileName := meta[0])];
      assert placemarks[|placemarks| - 1] == PlacemarkOf(original);
      assert order[..k + 1][..k] == order[..k];
    }
    assert order[..|order|] == order;
    r := Ok(Folder(TripName, placemarks));
  }

  /** The loop has completed the first `k` records and record `order[k]` lacks
      a field: the loop's result is the IndexError for it. */
  lemma StopsAt(rows: seq<string>, order: seq<nat>, k: nat)
    requires forall k :: 0 <= k < |order| ==> order[k] < |rows|
    requires k < |order| && Assemble(rows, order[..k]).Ok? && !HasAllFields(rows, order[k])
    ensures Assemble(rows, order) == Err(MissingField(order[k], |Fields(rows[order[k]])|))
  {
    var prefix := order[..k];
    assert forall j :: 0 <= j < k ==> prefix[j] == order[j];
    AssembleSpec(rows, prefix);
    AssembleError(rows, order, k);
  }

  /** The whole of lines 19-43 on exiftool's output `text`. */
  function Pipeline(text: string): Result<Folder, Error>
  {
    var rows := Records(text);
    ParseTimesSpec(rows);
    match ParseTimes(rows)
    case Err(e) => Err(e)
    case Ok(ts) => Assemble(rows, SortIndices(ts, |ts|))
  }

  /** `main` without the exiftool call and the file write. */
  method Convert(text: string) returns (r: Result<Folder, Error>)
    ensures r == Pipeline(text)
  {
    var rows := Records(text);
    var times := ParseTimes(rows);
    ParseTimesSpec(rows);
    if times.Err? {
      return Err(times.error);
    }
    var order := SortIndices(times.value, |times.value|);
    r := BuildFolder(rows, order);
  }

  /** The visiting order: the record indices stably sorted by capture time. */
  function VisitOrder(rows: seq<string>): seq<nat>
    requires ParseTimes(rows).Ok?
  {
    SortIndices(ParseTimes(rows).value, |ParseTimes(rows).value|)
  }

  /** A completed run got past the comprehension and is the loop's result
      over the visiting order, which lists every record exactly once. */
  lemma PipelineOk(text: string)
    requires Pipeline(text).Ok?
    ensures ParseTimes(Records(text)).Ok?
    ensures |VisitOrder(Records(text))| == |Records(text)|
    ensures forall k :: 0 <= k < |VisitOrder(Records(text))| ==> VisitOrder(Records(text))[k] < |Records(text)|
    ensures Pipeline(text) == Assemble(Records(text), VisitOrder(Records(text)))
  {
    var rows := Records(text);
    ParseTimesSpec(rows);
    PermutationOfRange(VisitOrder(rows), |rows|);
  }

  /** A completed run holds one placemark per record in a folder named
      `trip_name`; the visiting order lists every record exactly once, and the
      `k`-th placemark is built from the record visited `k`-th. */
  lemma PipelinePlacemarks(text: string)
    requires Pipeline(text).Ok?
    ensures ParseTimes(Records(text)).Ok?
    ensures var rows, order := Records(text), VisitOrder(Records(text));
            var folder := Pipeline(text).value;
            folder.name == TripName && |folder.placemarks| == |rows| &&
            IsPermutation(order, |rows|) && |order| == |rows| &&
            (forall k :: 0 <= k < |order| ==> order[k] < |rows|) &&
            (forall i :: 0 <= i < |rows| ==> multiset(order)[i] == 1) &&
            (forall k :: 0 <= k < |order| ==> HasAllFields(rows, order[k])) &&
            forall k :: 0 <= k < |rows| ==> folder.placemarks[k] == PlacemarkOf(Fields(rows[order[k]]))
  {
    PipelineOk(text);
    var rows := Records(text);
    var order := VisitOrder(rows);
    PermutationOfRange(order, |rows|);
    AssembleSpec(rows, order);
  }

  /** Exactly one placemark per record: as many as exiftool's output has
      newlines minus one (the header and what follows the last newline are not
      records), none for an empty output. */
  lemma PipelineCount(text: string)
    requires Pipeline(text).Ok?
    ensures |Pipeline(text).value.placemarks| ==
            if multiset(text)['\n'] == 0 then 0 else multiset(text)['\n'] - 1
  {
    PipelinePlacemarks(text);
  }

  /** With at most the header line there is nothing to place: the folder is
      empty but still written. */
  lemma PipelineEmpty(text: string)
    requires multiset(text)['\n'] <= 1
    ensures Pipeline(text) == Ok(Folder(TripName, []))
  {
    assert Records(text) == [];
  }

  /** The run completes exactly when every record has a readable capture time
      in field 3 and has the five fields the loop reads. */
  lemma PipelineSucceeds(text: string)
    ensures Pipeline(text).Ok? <==>
            forall i :: 0 <= i < |Records(text)| ==>
              RowTime(Records(text)[i], i).Ok? && HasAllFields(Records(text), i)
  {
    var rows := Records(text);
    ParseTimesSpec(rows);
    if ParseTimes(rows).Ok? {
      var order := VisitOrder(rows);
      PermutationOfRange(order, |rows|);
      AssembleSpec(rows, order);
      if forall k :: 0 <= k < |order| ==> HasAllFields(rows, order[k]) {
        forall i | 0 <= i < |rows| ensures HasAllFields(rows, i) {
          assert i in multiset(order);
          var k :| 0 <= k < |order| && order[k] == i;
        }
      }
    }
  }

  /** If a record's field 3 is not a capture time of the layout "%Y:%m:%d
      %H:%M:%S", the run stops with that record's ValueError before any
      placemark is built; if it has no field 3, with its IndexError. The first
      such record decides. */
  lemma PipelineBadTime(text: string, i: nat)
    requires i < |Records(text)| && FirstFailure(Records(text), i)
    ensures Pipeline(text) == Err(RowTime(Records(text)[i], i).error)
    ensures Pipeline(text) ==
            Err(if |Fields(Records(text)[i])| < 4 then MissingField(i, 3) else BadTimestamp(i))
  {
    ParseTimesError(Records(text), i);
  }

  /** Once every capture time was read, every record has fields 0 to 3, so
      the loop can only stop at `meta[4]`: the first record in visiting order
      with exactly four fields ends the run with that IndexError. */
  lemma PipelineNoModel(text: string, k: nat)
    requires ParseTimes(Records(text)).Ok?
    requires k < |VisitOrder(Records(text))|
    requires forall j :: 0 <= j < |VisitOrder(Records(text))| ==> VisitOrder(Records(text))[j] < |Records(text)|
    requires FirstShort(Records(text), VisitOrder(Records(text)), k)
    ensures Pipeline(text) == Err(MissingField(VisitOrder(Records(text))[k], 4))
  {
    var rows := Records(text);
    var order := VisitOrder(rows);
    var i := order[k];
    ParseTimesSpec(rows);
    assert RowTime(rows[i], i).Ok?;
    LoopStopsAtModel(rows, order, k);
  }

  /** A visited record whose capture time was read has four fields; if it is
      the first one short of five, the loop stops at its `meta[4]`. */
  lemma LoopStopsAtModel(rows: seq<string>, order: seq<nat>, k: nat)
    requires forall j :: 0 <= j < |order| ==> order[j] < |rows|
    requires k < |order| && FirstShort(rows, order, k)
    requires RowTime(rows[order[k]], order[k]).Ok?
    ensures Assemble(rows, order) == Err(MissingField(order[k], 4))
  {
    AssembleError(rows, order, k);
  }

  /** The placemarks appear in chronological order: every `Time` value parses,
      no later placemark has an earlier time, and (because the layout is
      fixed-width) the `Time` strings are in ascending string order. */
  lemma PipelineChronological(text: string)
    requires Pipeline(text).Ok?
    ensures var placemarks := Pipeline(text).value.placemarks;
            (forall k :: 0 <= k < |placemarks| ==> Parse(placemarks[k].time).Some?) &&
            (forall p, q :: 0 <= p < q < |placemarks| ==>
               !TimeLess(Parse(placemarks[q].time).value, Parse(placemarks[p].time).value) &&
               !LexLess(placemarks[q].time, placemarks[p].time))
  {
    var rows := Records(text);
    PipelinePlacemarks(text);
    ParseTimesSpec(rows);
    var ts := ParseTimes(rows).value;
    var order := VisitOrder(rows);
    var placemarks := Pipeline(text).value.placemarks;
    forall k | 0 <= k < |placemarks|
      ensures Parse(placemarks[k].time) == Some(ts[order[k]])
    {
      assert placemarks[k].time == Fields(rows[order[k]])[3];
    }
    forall p, q | 0 <= p < q < |placemarks|
      ensures !TimeLess(Parse(placemarks[q].time).value, Parse(placemarks[p].time).value)
      ensures !LexLess(placemarks[q].time, placemarks[p].time)
    {
      assert Before(ts, order[p], order[q]);
      BeforeOrder(ts, order[p], order[q], order[p]);
      TimeLessOrder(ts[order[q]], ts[order[p]], ts[order[q]]);
      ParsedOrder(placemarks[q].time, placemarks[p].time);
    }
  }

  /** Python's `sorted` is stable: placemarks with the same `Time` appear in the
      order of their records in exiftool's output. */
  lemma PipelineStable(text: string)
    requires Pipeline(text).Ok?
    ensures ParseTimes(Records(text)).Ok?
    ensures var placemarks, order := Pipeline(text).value.placemarks, VisitOrder(Records(text));
            |order| == |placemarks| &&
            forall p, q :: 0 <= p < q < |placemarks| && placemarks[p].time == placemarks[q].time ==>
              order[p] < order[q]
  {
    var rows := Records(text);
    PipelinePlacemarks(text);
    ParseTimesSpec(rows);
    var ts := ParseTimes(rows).value;
    var order := VisitOrder(rows);
    var placemarks := Pipeline(text).value.placemarks;
    forall p, q | 0 <= p < q < |placemarks| && placemarks[p].time == placemarks[q].time
      ensures order[p] < order[q]
    {
      assert placemarks[p].time == Fields(rows[order[p]])[3];
      assert placemarks[q].time == Fields(rows[order[q]])[3];
      assert ts[order[p]] == ts[order[q]];
      assert Before(ts, order[p], order[q]);
    }
  }

  /** What each placemark says about its record (the fields split at every
      comma): name and `Time` are field 3 as written, `Model` is field 4,
      `Trip` is `trip_name`, the description is fixed; `Name` is field 0 minus
      its first two characters, whatever they are; the coordinates are field 2
      and field 1 with their quotes removed, joined by ", ", and hold no quote. */
  lemma PipelineFields(text: string, k: nat)
    requires Pipeline(text).Ok? && k < |Pipeline(text).value.placemarks|
    ensures ParseTimes(Records(text)).Ok?
    ensures var order := VisitOrder(Records(text));
            k < |order| && order[k] < |Records(text)| &&
            var meta, p := Fields(Records(text)[order[k]]), Pipeline(text).value.placemarks[k];
            |meta| >= 5 && PlacemarkFrom(meta, p)
  {
    PipelinePlacemarks(text);
    var order := VisitOrder(Records(text));
    var meta := Fields(Records(text)[order[k]]);
    assert HasAllFields(Records(text), order[k]);
    PlacemarkOfSpec(meta);
  }

  /** Placemark `p` shows record fields `meta` as the loop body does. */
  predicate PlacemarkFrom(meta: seq<string>, p: Placemark)
    requires |meta| >= 5
  {
    p.name == meta[3] && p.time == meta[3] && p.model == meta[4] &&
    p.trip == TripName && p.description == Description &&
    (|meta[0]| >= 2 ==> meta[0] == meta[0][..2] + p.fileName) &&
    (|meta[0]| < 2 ==> p.fileName == "") &&
    p.coordinates == StripQuotes(meta[2]) + ", " + StripQuotes(meta[1]) &&
    '"' !in p.coordinates && '\'' !in p.coordinates
  }

  lemma PlacemarkOfSpec(meta: seq<string>)
    requires |meta| >= 5
    ensures PlacemarkFrom(meta, PlacemarkOf(meta))
  {
    StripQuotesSpec(meta[1]);
    StripQuotesSpec(meta[2]);
  }
}
