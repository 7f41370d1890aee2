/**
 * pkg/influxdb/influxdb.go: turning CSV rows into InfluxDB points
 * (`toPoint`, `toPoints`). A row maps column names to values of an
 * arbitrary type `V`; how a value is printed with `%v`, and how the
 * timestamp, booleans, floats and integers are parsed, are parameters.
 */
module Influx {
  import opened Wrappers
  import opened Flags

  /** The Go value handed to `AddField`: a parsed bool, float64, int or string, or nil for an unknown field type. */
  datatype FieldValue = BoolValue(b: bool) | FloatValue(f: real) | IntValue(i: int) | StringValue(s: string) | NilValue

  /** A point as built: measurement, time, then the `AddTag` and `AddField` calls in order. */
  datatype Point = Point(measurement: string, time: int, tags: seq<(string, string)>, fields: seq<(string, FieldValue)>)

  datatype PointError =
    | TimeParseError(layout: string, text: string)
    | MissingMeasurement
    | MissingTagRow(row: string)
    | MissingFieldRow(row: string)
    | ValueParseError(fieldType: string, text: string)

  /**
   * The library calls `toPoint` relies on: `fmt.Sprintf("%v", _)`,
   * `time.Parse(layout, _)` (a time as an integer instant),
   * `strconv.ParseBool`, `strconv.ParseFloat(_, 64)` and `strconv.Atoi`.
   */
  datatype Conversions<!V> = Conversions(
    format: V -> string,
    parseTime: (string, string) -> Option<int>,
    parseBool: string -> Option<bool>,
    parseFloat: string -> Option<real>,
    parseInt: string -> Option<int>)

  /** `%v` of a nil interface, which is what a missing map key yields. */
  const NilText: string := "<nil>"

  /** `fmt.Sprintf("%v", row[key])` */
  function Text<V>(row: map<string, V>, key: string, c: Conversions<V>): string {
    if key in row then c.format(row[key]) else NilText
  }

  /** The `switch e.FieldType` of `toPoint`: parse according to the type; an unknown type yields nil and no error. */
  function ConvertField<V>(fieldType: string, text: string, c: Conversions<V>): (r: Result<FieldValue, PointError>)
    ensures r.Err? <==>
      || (fieldType == FieldTypeBool && c.parseBool(text).None?)
      || (fieldType == FieldTypeFloat && c.parseFloat(text).None?)
      || (fieldType == FieldTypeInteger && c.parseInt(text).None?)
    ensures r.Err? ==> r.error == ValueParseError(fieldType, text)
    ensures fieldType == FieldTypeBool && c.parseBool(text).Some? ==> r == Ok(BoolValue(c.parseBool(text).value))
    ensures fieldType == FieldTypeFloat && c.parseFloat(text).Some? ==> r == Ok(FloatValue(c.parseFloat(text).value))
    ensures fieldType == FieldTypeInteger && c.parseInt(text).Some? ==> r == Ok(IntValue(c.parseInt(text).value))
    ensures fieldType == FieldTypeString ==> r == Ok(StringValue(text))
    ensures r == Ok(NilValue) <==> !IsValidFieldType(fieldType)
  {
    if fieldType == FieldTypeBool then
      (match c.parseBool(text) case Some(b) => Ok(BoolValue(b)) case None => Err(ValueParseError(fieldType, text)))
    else if fieldType == FieldTypeFloat then
      (match c.parseFloat(text) case Some(f) => Ok(FloatValue(f)) case None => Err(ValueParseError(fieldType, text)))
    else if fieldType == FieldTypeInteger then
      (match c.parseInt(text) case Some(i) => Ok(IntValue(i)) case None => Err(ValueParseError(fieldType, text)))
    else if fieldType == FieldTypeString then Ok(StringValue(text))
    else Ok(NilValue)
  }

  // ---------------------------------------------------------------------------
  // Collecting results, stopping at the first error
  // ---------------------------------------------------------------------------

  /** Apply `f` to every element in order; the first error, if any, is the result. */
  function Collect<A, B, E>(xs: seq<A>, f: A -> Result<B, E>): Result<seq<B>, E> {
    if xs == [] then Ok([])
    else
      match Collect(xs[..|xs| - 1], f)
      case Err(e) => Err(e)
      case Ok(acc) =>
        match f(xs[|xs| - 1])
        case Err(e) => Err(e)
        case Ok(y) => Ok(acc + [y])
  }

  /** Once a prefix fails, the whole collection fails with the same error. */
  lemma {:induction false} CollectErrorExtends<A, B, E>(xs: seq<A>, f: A -> Result<B, E>, i: nat)
    requires i <= |xs|
    requires Collect(xs[..i], f).Err?
    ensures Collect(xs, f) == Collect(xs[..i], f)
    decreases |xs| - i
  {
    if i < |xs| {
      assert xs[..i + 1][..i] == xs[..i];
      CollectErrorExtends(xs, f, i + 1);
    } else {
      assert xs[..i] == xs;
    }
  }

  /** One more element: its error, or its value appended. */
  lemma CollectSnoc<A, B, E>(xs: seq<A>, f: A -> Result<B, E>, i: nat, acc: seq<B>)
    requires i < |xs| && Collect(xs[..i], f) == Ok(acc)
    ensures f(xs[i]).Ok? ==> Collect(xs[..i + 1], f) == Ok(acc + [f(xs[i]).value])
    ensures f(xs[i]).Err? ==> Collect(xs, f) == Err(f(xs[i]).error)
  {
    assert xs[..i + 1][..i] == xs[..i];
    if f(xs[i]).Err? {
      CollectErrorExtends(xs, f, i + 1);
    }
  }

  /**
   * `Collect` succeeds iff every element succeeds, and then holds every
   * element's value in order; otherwise its error is that of the first
   * element that fails.
   */
  lemma {:induction false} CollectOutcome<A, B, E>(xs: seq<A>, f: A -> Result<B, E>)
    ensures Collect(xs, f).Ok? <==> forall i :: 0 <= i < |xs| ==> f(xs[i]).Ok?
    ensures Collect(xs, f).Ok? ==>
      |Collect(xs, f).value| == |xs| && forall i :: 0 <= i < |xs| ==> Collect(xs, f).value[i] == f(xs[i]).value
    ensures Collect(xs, f).Err? ==>
      exists k :: 0 <= k < |xs| && f(xs[k]).Err? && Collect(xs, f).error == f(xs[k]).error &&
        forall j :: 0 <= j < k ==> f(xs[j]).Ok?
  {
    if xs != [] {
      var init := xs[..|xs| - 1];
      CollectOutcome(init, f);
      assert forall i :: 0 <= i < |init| ==> init[i] == xs[i];
      if Collect(init, f).Err? {
        var k :| 0 <= k < |init| && f(init[k]).Err? && Collect(init, f).error == f(init[k]).error &&
          forall j :: 0 <= j < k ==> f(init[j]).Ok?;
        assert f(xs[k]).Err?;
      }
    }
  }

  // ---------------------------------------------------------------------------
  // toPoint
  // ---------------------------------------------------------------------------

  /** One `AddTag` call: the tag name and the `%v` text of its row, or an error when the row is absent. */
  function TagEntry<V>(row: map<string, V>, t: TagConf, c: Conversions<V>): Result<(string, string), PointError> {
    if t.row !in row then Err(MissingTagRow(t.row)) else Ok((t.tag, c.format(row[t.row])))
  }

  /** One `AddField` call: the field name and the converted value of its row. */
  function FieldEntry<V>(row: map<string, V>, f: FieldConf, c: Conversions<V>): Result<(string, FieldValue), PointError> {
    if f.row !in row then Err(MissingFieldRow(f.row))
    else
      match ConvertField(f.fieldType, c.format(row[f.row]), c)
      case Err(e) => Err(e)
      case Ok(x) => Ok((f.field, x))
  }

  function TagStep<V>(row: map<string, V>, c: Conversions<V>): TagConf -> Result<(string, string), PointError> {
    t => TagEntry(row, t, c)
  }

  function FieldStep<V>(row: map<string, V>, c: Conversions<V>): FieldConf -> Result<(string, FieldValue), PointError> {
    f => FieldEntry(row, f, c)
  }

  /** What `toPoint` returns for one row. */
  function PointOf<V>(row: map<string, V>, measurement: string, tsLayout: string, tsRow: string,
                      tags: seq<TagConf>, fields: seq<FieldConf>, c: Conversions<V>): Result<Point, PointError>
  {
    var text := Text(row, tsRow, c);
    match c.parseTime(tsLayout, text)
    case None => Err(TimeParseError(tsLayout, text))
    case Some(t) =>
      if measurement == [] then Err(MissingMeasurement)
      else
        match Collect(tags, TagStep(row, c))
        case Err(e) => Err(e)
        case Ok(ts) =>
          match Collect(fields, FieldStep(row, c))
          case Err(e) => Err(e)
          case Ok(fs) => Ok(Point(measurement, t, ts, fs))
  }

  /** `toPoint`: parse the time, check the measurement, then add tags and fields one by one. */
  method ToPoint<V>(row: map<string, V>, measurement: string, tsLayout: string, tsRow: string,
                    tags: seq<TagConf>, fields: seq<FieldConf>, c: Conversions<V>) returns (r: Result<Point, PointError>)
    ensures r == PointOf(row, measurement, tsLayout, tsRow, tags, fields, c)
  {
    var text := Text(row, tsRow, c);
    var t := c.parseTime(tsLayout, text);
    if t.None? {
      return Err(TimeParseError(tsLayout, text));
    }
    if measurement == [] {
      return Err(MissingMeasurement);
    }
    var point := Point(measurement, t.value, [], []);
    var i := 0;
    while i < |tags|
      invariant 0 <= i <= |tags|
      invariant Collect(tags[..i], TagStep(row, c)) == Ok(point.tags)
      invariant point.measurement == measurement && point.time == t.value && point.fields == []
    {
      var e := tags[i];
      CollectSnoc(tags, TagStep(row, c), i, point.tags);
      assert TagStep(row, c)(e) == TagEntry(row, e, c);
      if e.row !in row {
        return Err(MissingTagRow(e.row));
      }
      point := point.(tags := point.tags + [(e.tag, c.format(row[e.row]))]);
      i := i + 1;
    }
    assert tags[..i] == tags;
    var j := 0;
    while j < |fields|
      invariant 0 <= j <= |fields|
      invariant Collect(fields[..j], FieldStep(row, c)) == Ok(point.fields)
      invariant point.measurement == measurement && point.time == t.value
      invariant Collect(tags, TagStep(row, c)) == Ok(point.tags)
    {
      var e := fields[j];
      CollectSnoc(fields, FieldStep(row, c), j, point.fields);
      assert FieldStep(row, c)(e) == FieldEntry(row, e, c);
      if e.row !in row {
        return Err(MissingFieldRow(e.row));
      }
      var fieldVal: FieldValue := NilValue;
      var parseErr: Option<PointError> := None;
      var strField := c.format(row[e.row]);
      if e.fieldType == FieldTypeBool {
        var b := c.parseBool(strField);
        if b.Some? { fieldVal := BoolValue(b.value); } else { parseErr := Some(ValueParseError(e.fieldType, strField)); }
      } else if e.fieldType == FieldTypeFloat {
        var f := c.parseFloat(strField);
        if f.Some? { fieldVal := FloatValue(f.value); } else { parseErr := Some(ValueParseError(e.fieldType, strField)); }
      } else if e.fieldType == FieldTypeInteger {
        var n := c.parseInt(strField);
        if n.Some? { fieldVal := IntValue(n.value); } else { parseErr := Some(ValueParseError(e.fieldType, strField)); }
      } else if e.fieldType == FieldTypeString {
        fieldVal := StringValue(strField);
      }
      assert parseErr.Some? <==> ConvertField(e.fieldType, strField, c).Err?;
      if parseErr.Some? {
        assert parseErr.value == ConvertField(e.fieldType, strField, c).error;
        return Err(parseErr.value);
      }
      assert fieldVal == ConvertField(e.fieldType, strField, c).value;
      point := point.(fields := point.fields + [(e.field, fieldVal)]);
      j := j + 1;
    }
    assert fields[..j] == fields;
    return Ok(point);
  }

  /**
   * `toPoint` checks the time first and the measurement second; it succeeds
   * iff every tag and field row is present and every field value converts,
   * and then the point carries the measurement, the parsed time, one tag per
   * configured tag and one field per configured field, in order.
   */
  lemma PointOfOutcome<V>(row: map<string, V>, measurement: string, tsLayout: string, tsRow: string,
                          tags: seq<TagConf>, fields: seq<FieldConf>, c: Conversions<V>)
    ensures c.parseTime(tsLayout, Text(row, tsRow, c)).None? ==>
      PointOf(row, measurement, tsLayout, tsRow, tags, fields, c) == Err(TimeParseError(tsLayout, Text(row, tsRow, c)))
    ensures c.parseTime(tsLayout, Text(row, tsRow, c)).Some? && measurement == [] ==>
      PointOf(row, measurement, tsLayout, tsRow, tags, fields, c) == Err(MissingMeasurement)
    ensures PointOf(row, measurement, tsLayout, tsRow, tags, fields, c).Ok? <==>
      && c.parseTime(tsLayout, Text(row, tsRow, c)).Some?
      && measurement != []
      && (forall i :: 0 <= i < |tags| ==> tags[i].row in row)
      && (forall i :: 0 <= i < |fields| ==>
            fields[i].row in row && ConvertField(fields[i].fieldType, c.format(row[fields[i].row]), c).Ok?)
    ensures PointOf(row, measurement, tsLayout, tsRow, tags, fields, c).Ok? ==>
      var p := PointOf(row, measurement, tsLayout, tsRow, tags, fields, c).value;
      && p.measurement == measurement
      && Some(p.time) == c.parseTime(tsLayout, Text(row, tsRow, c))
      && |p.tags| == |tags|
      && (forall i :: 0 <= i < |tags| ==>
            tags[i].row in row && p.tags[i] == (tags[i].tag, c.format(row[tags[i].row])))
      && |p.fields| == |fields|
      && (forall i :: 0 <= i < |fields| ==>
            fields[i].row in row &&
            p.fields[i] == (fields[i].field, ConvertField(fields[i].fieldType, c.format(row[fields[i].row]), c).value))
  {
    CollectOutcome(tags, TagStep(row, c));
    CollectOutcome(fields, FieldStep(row, c));
  }

  /** The first tag whose row is absent decides the error, once time and measurement are fine. */
  lemma PointOfMissingTag<V>(row: map<string, V>, measurement: string, tsLayout: string, tsRow: string,
                             tags: seq<TagConf>, fields: seq<FieldConf>, c: Conversions<V>, k: nat)
    requires c.parseTime(tsLayout, Text(row, tsRow, c)).Some? && measurement != []
    requires k < |tags| && tags[k].row !in row
    requires forall j :: 0 <= j < k ==> tags[j].row in row
    ensures PointOf(row, measurement, tsLayout, tsRow, tags, fields, c) == Err(MissingTagRow(tags[k].row))
  {
    CollectOutcome(tags, TagStep(row, c));
    if Collect(tags, TagStep(row, c)).Err? {
      var k' :| 0 <= k' < |tags| && TagStep(row, c)(tags[k']).Err? &&
        Collect(tags, TagStep(row, c)).error == TagStep(row, c)(tags[k']).error &&
        forall j :: 0 <= j < k' ==> TagStep(row, c)(tags[j]).Ok?;
      assert TagStep(row, c)(tags[k]).Err?;
      assert k' == k;
    }
  }

  /**
   * Once time, measurement and every tag row are fine, the first field whose
   * row is absent or whose value does not convert decides the error.
   */
  lemma PointOfFirstFieldError<V>(row: map<string, V>, measurement: string, tsLayout: string, tsRow: string,
                                  tags: seq<TagConf>, fields: seq<FieldConf>, c: Conversions<V>, k: nat)
    requires c.parseTime(tsLayout, Text(row, tsRow, c)).Some? && measurement != []
    requires forall j :: 0 <= j < |tags| ==> tags[j].row in row
    requires k < |fields|
    requires fields[k].row !in row || ConvertField(fields[k].fieldType, c.format(row[fields[k].row]), c).Err?
    requires forall j :: 0 <= j < k ==>
      fields[j].row in row && ConvertField(fields[j].fieldType, c.format(row[fields[j].row]), c).Ok?
    ensures PointOf(row, measurement, tsLayout, tsRow, tags, fields, c) ==
      if fields[k].row !in row then Err(MissingFieldRow(fields[k].row))
      else Err(ValueParseError(fields[k].fieldType, c.format(row[fields[k].row])))
  {
    CollectOutcome(tags, TagStep(row, c));
    CollectOutcome(fields, FieldStep(row, c));
    assert FieldStep(row, c)(fields[k]).Err?;
    var k' :| 0 <= k' < |fields| && FieldStep(row, c)(fields[k']).Err? &&
      Collect(fields, FieldStep(row, c)).error == FieldStep(row, c)(fields[k']).error &&
      forall j :: 0 <= j < k' ==> FieldStep(row, c)(fields[j]).Ok?;
    assert k' == k;
  }

  // ---------------------------------------------------------------------------
  // toPoints
  // ---------------------------------------------------------------------------

  /**
   * `toPoints`: one point per row, in order, or the error of the first row
   * that fails (no points at all then).
   */
  method ToPoints<V>(rows: seq<map<string, V>>, measurement: string, tsLayout: string, tsRow: string,
                     tags: seq<TagConf>, fields: seq<FieldConf>, c: Conversions<V>) returns (r: Result<seq<Point>, PointError>)
    ensures r.Ok? <==> forall i :: 0 <= i < |rows| ==> PointOf(rows[i], measurement, tsLayout, tsRow, tags, fields, c).Ok?
    ensures r.Ok? ==>
      && |r.value| == |rows|
      && forall i :: 0 <= i < |rows| ==> r.value[i] == PointOf(rows[i], measurement, tsLayout, tsRow, tags, fields, c).value
    ensures r.Err? ==>
      exists k ::
        && 0 <= k < |rows|
        && PointOf(rows[k], measurement, tsLayout, tsRow, tags, fields, c).Err?
        && r.error == PointOf(rows[k], measurement, tsLayout, tsRow, tags, fields, c).error
        && forall j :: 0 <= j < k ==> PointOf(rows[j], measurement, tsLayout, tsRow, tags, fields, c).Ok?
  {
    var res := new Point[|rows|];
    var i := 0;
    while i < |rows|
      invariant 0 <= i <= |rows|
      invariant forall j :: 0 <= j < i ==>
        PointOf(rows[j], measurement, tsLayout, tsRow, tags, fields, c) == Ok(res[j])
    {
      var p := ToPoint(rows[i], measurement, tsLayout, tsRow, tags, fields, c);
      if p.Err? {
        return Err(p.error);
      }
      res[i] := p.value;
      i := i + 1;
    }
    return Ok(res[..]);
  }
}
