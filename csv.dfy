/**
 * pkg/csv/csv.go: `ParseString` reads CSV records, takes the first as the
 * header and zips every later record with it into a row map.
 *
 * The tokenizer of Go's `encoding/csv` (quotes, separators, line ends) is
 * not modelled: its input is the sequence of records it yields and the way
 * the input ends, cleanly or with a syntax error. What is modelled of the
 * reader is its per-record field-count rule.
 */
module Csv {
  import opened Wrappers

  /** A record as the reader yields it: it always has at least one field. */
  type Record = r: seq<string> | r != [] witness [[]]

  datatype StreamEnd = Eof | Malformed(reason: string)

  /** The records of an input, in order, then how it ends. */
  datatype RecordStream = RecordStream(records: seq<Record>, end: StreamEnd)

  datatype ReadError =
    | FieldCount(record: nat)   // `csv.ErrFieldCount` on the record with this index
    | Syntax(reason: string)    // any other `*csv.ParseError`

  datatype ReadOutcome = Line(fields: Record) | EndOfInput | Failed(err: ReadError)

  /** Every record has as many fields as the first. */
  predicate UniformWidth(records: seq<Record>) {
    forall i :: 0 <= i < |records| ==> |records[i]| == |records[0]|
  }

  /**
   * `csv.Reader` with the default `FieldsPerRecord` of 0: the first record
   * fixes the number of fields, and a later record with another number is
   * returned as an `ErrFieldCount` error.
   */
  class Reader {
    const stream: RecordStream
    var pos: nat
    var fieldsPerRecord: nat

    constructor (s: RecordStream)
      ensures stream == s && pos == 0 && fieldsPerRecord == 0
    {
      stream := s;
      pos := 0;
      fieldsPerRecord := 0;
    }

    /** `Reader.Read` */
    method Read() returns (out: ReadOutcome)
      requires pos <= |stream.records|
      modifies this
      ensures pos <= |stream.records|
      ensures old(pos) == |stream.records| ==>
        && pos == old(pos)
        && fieldsPerRecord == old(fieldsPerRecord)
        && out == (if stream.end == Eof then EndOfInput else Failed(Syntax(stream.end.reason)))
      ensures old(pos) < |stream.records| ==>
        var rec := stream.records[old(pos)];
        && pos == old(pos) + 1
        && (if old(fieldsPerRecord) > 0 && |rec| != old(fieldsPerRecord) then
              out == Failed(FieldCount(old(pos))) && fieldsPerRecord == old(fieldsPerRecord)
            else
              out == Line(rec) && fieldsPerRecord == |rec|)
    {
      if pos == |stream.records| {
        if stream.end == Eof {
          return EndOfInput;
        }
        return Failed(Syntax(stream.end.reason));
      }
      var rec := stream.records[pos];
      pos := pos + 1;
      if fieldsPerRecord > 0 {
        if |rec| != fieldsPerRecord {
          return Failed(FieldCount(pos - 1));
        }
      } else {
        fieldsPerRecord := |rec|;
      }
      return Line(rec);
    }
  }

  /** The row map of the first `|line|` columns: column `i` stores `line[i]` under `header[i]`. */
  function RowOf(header: seq<string>, line: seq<string>): map<string, string>
    requires |line| <= |header|
  {
    if line == [] then map[]
    else RowOf(header, line[..|line| - 1])[header[|line| - 1] := line[|line| - 1]]
  }

  /**
   * The row's keys are the header names of its columns; a name that occurs
   * more than once keeps the value of its last column.
   */
  lemma {:induction false} RowOfContents(header: seq<string>, line: seq<string>)
    requires |line| <= |header|
    ensures RowOf(header, line).Keys == set i | 0 <= i < |line| :: header[i]
    ensures forall i :: 0 <= i < |line| && (forall j :: i < j < |line| ==> header[j] != header[i]) ==>
      header[i] in RowOf(header, line) && RowOf(header, line)[header[i]] == line[i]
  {
    if line != [] {
      var init := line[..|line| - 1];
      RowOfContents(header, init);
      assert forall i :: 0 <= i < |init| ==> init[i] == line[i];
    }
  }

  /** With distinct header names every column is found under its own name. */
  lemma RowOfDistinct(header: seq<string>, line: seq<string>)
    requires |line| == |header|
    requires forall i, j :: 0 <= i < j < |header| ==> header[i] != header[j]
    ensures forall i :: 0 <= i < |line| ==> header[i] in RowOf(header, line) && RowOf(header, line)[header[i]] == line[i]
  {
    RowOfContents(header, line);
  }

  /**
   * `ParseString`: one row per record after the header, or the reader's
   * first error. It succeeds iff the input ends cleanly and every record has
   * the header's width; a record of another width is reported by its index.
   */
  method ParseString(s: RecordStream) returns (r: Result<seq<map<string, string>>, ReadError>)
    ensures r.Ok? <==> s.end == Eof && UniformWidth(s.records)
    ensures r.Ok? ==>
      && |r.value| == (if s.records == [] then 0 else |s.records| - 1)
      && forall j :: 0 <= j < |r.value| ==> r.value[j] == RowOf(s.records[0], s.records[j + 1])
    ensures r.Err? && r.error.FieldCount? ==>
      var k := r.error.record;
      && 0 < k < |s.records|
      && |s.records[k]| != |s.records[0]|
      && forall j :: 0 <= j < k ==> |s.records[j]| == |s.records[0]|
    ensures r.Err? && r.error.Syntax? ==> s.end == Malformed(r.error.reason) && UniformWidth(s.records)
  {
    var header: Option<Record> := None;
    var res: seq<map<string, string>> := [];
    var reader := new Reader(s);
    while true
      invariant reader.stream == s && reader.pos <= |s.records|
      invariant header.None? <==> reader.pos == 0
      invariant reader.pos > 0 ==> header == Some(s.records[0]) && reader.fieldsPerRecord == |s.records[0]|
      invariant reader.pos == 0 ==> reader.fieldsPerRecord == 0
      invariant UniformWidth(s.records[..reader.pos])
      invariant |res| == (if reader.pos == 0 then 0 else reader.pos - 1)
      invariant forall j :: 0 <= j < |res| ==> res[j] == RowOf(s.records[0], s.records[j + 1])
      decreases |s.records| - reader.pos
    {
      var out := reader.Read();
      if out.EndOfInput? {
        assert s.records[..reader.pos] == s.records;
        break;
      } else if out.Failed? {
        if out.err.Syntax? {
          assert s.records[..reader.pos] == s.records;
        }
        return Err(out.err);
      }
      var line := out.fields;
      assert s.records[..reader.pos] == s.records[..reader.pos - 1] + [line];
      if header.None? {
        header := Some(line);
        continue;
      }
      var row: map<string, string> := map[];
      var i := 0;
      while i < |line|
        invariant 0 <= i <= |line| == |header.value|
        invariant row == RowOf(header.value, line[..i])
      {
        assert line[..i + 1][..i] == line[..i];
        row := row[header.value[i] := line[i]];
        i := i + 1;
      }
      assert line[..i] == line;
      res := res + [row];
    }
    return Ok(res);
  }
}
