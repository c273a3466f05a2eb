/** Reading one station's CSV export into (date, reading) observations
    (XMLParse.java, lines 217-247).

    The export is given as its sequence of lines. The reader consumes a caption
    line and the station line, then searches the remaining lines for the one
    that opens the data table; every later line is a data line, split on `;`,
    until a line with fewer than two fields ends the table. Field 2 of a data
    line is the date key and field 3 the reading.

    Splitting a line and interpreting its fields are kept apart: `Records`
    splits the lines after the marker, and the table is read from the
    resulting field records. */
module Ingestion {
  import opened Results
  import opened Text

  /** The text that opens the data table. */
  const DataMarker: string := "Från Datum Tid"

  const FieldSeparator: char := ';'

  /** Lines read before the search for the data table starts: a caption line
      and the station line. */
  const PreambleLines: nat := 2

  /** Decoding of a reading field; `None` when the text is not a number. */
  type ReadingParser = string -> Option<real>

  datatype Observation = Observation(date: string, reading: real)

  /** Why an export cannot be read. Each of these ends the whole run. */
  datatype IngestError =
    | MissingLine                      // the export ends before the station line
    | NoStationName                    // the station line splits into no fields at all
    | MissingMarker                    // no line after the preamble opens the data table
    | ShortRecord(fields: seq<string>) // a data line with two or three fields
    | BadReading(text: string)         // a reading field that is not a number

  /** The fields of a line. */
  function Fields(line: string): seq<string> {
    SplitFields(line, FieldSeparator)
  }

  /** The fields of every line, in order. */
  function Records(lines: seq<string>): (records: seq<seq<string>>)
    ensures |records| == |lines|
    ensures forall j :: 0 <= j < |lines| ==> records[j] == Fields(lines[j])
  {
    seq(|lines|, j requires 0 <= j < |lines| => Fields(lines[j]))
  }

  /** A record that ends the data table. */
  predicate EndsTable(fields: seq<string>) {
    |fields| < 2
  }

  /** A data record the reader turns into an observation. */
  predicate Accepted(fields: seq<string>, parse: ReadingParser) {
    |fields| >= 4 && parse(fields[3]).Some?
  }

  function ObservationOf(fields: seq<string>, parse: ReadingParser): Observation
    requires Accepted(fields, parse)
  {
    Observation(fields[2], parse(fields[3]).value)
  }

  /** The first line at or after `from` that opens the data table. */
  function FindMarker(lines: seq<string>, from: nat): (r: Option<nat>)
    requires from <= |lines|
    ensures r.Some? ==> from <= r.value < |lines| && StartsWith(lines[r.value], DataMarker)
    ensures r.Some? ==> forall j :: from <= j < r.value ==> !StartsWith(lines[j], DataMarker)
    ensures r.None? <==> forall j :: from <= j < |lines| ==> !StartsWith(lines[j], DataMarker)
    decreases |lines| - from
  {
    if from == |lines| then None
    else if StartsWith(lines[from], DataMarker) then Some(from)
    else FindMarker(lines, from + 1)
  }

  /** Number of data records before the first record that ends the table. */
  function TableLength(data: seq<seq<string>>): (n: nat)
    ensures n <= |data|
    ensures n < |data| ==> EndsTable(data[n])
    ensures forall j :: 0 <= j < n ==> !EndsTable(data[j])
  {
    if |data| == 0 || EndsTable(data[0]) then 0
    else 1 + TableLength(data[1..])
  }

  /** Reads the data records that follow the marker line. The read succeeds
      exactly when every record of the table is accepted, and then yields one
      observation per table record, in order. */
  function ReadTable(data: seq<seq<string>>, parse: ReadingParser): (r: Result<seq<Observation>, IngestError>)
    ensures r.Success? <==> forall j :: 0 <= j < TableLength(data) ==> Accepted(data[j], parse)
    ensures r.Success? ==> |r.value| == TableLength(data)
    ensures r.Success? ==> forall j :: 0 <= j < |r.value| ==>
              Accepted(data[j], parse) && r.value[j] == ObservationOf(data[j], parse)
    ensures r.Failure? ==> r.error.ShortRecord? || r.error.BadReading?
  {
    if |data| == 0 then Success([])
    else
      var fields := data[0];
      if |fields| < 2 then Success([])
      else if |fields| < 4 then Failure(ShortRecord(fields))
      else match parse(fields[3])
        case None => Failure(BadReading(fields[3]))
        case Some(v) =>
          match ReadTable(data[1..], parse)
          case Failure(e) => Failure(e)
          case Success(rest) =>
            assert forall j :: 0 < j < |data| ==> data[1..][j - 1] == data[j];
            Success([Observation(fields[2], v)] + rest)
  }

  /** Reads one station's export: skip the caption and station lines, find
      the marker line, read the table after it. */
  function Ingest(lines: seq<string>, parse: ReadingParser): (r: Result<seq<Observation>, IngestError>)
    ensures r == Failure(MissingMarker) <==>
              && |lines| >= PreambleLines
              && |Fields(lines[1])| > 0
              && forall j :: PreambleLines <= j < |lines| ==> !StartsWith(lines[j], DataMarker)
    ensures r == Failure(MissingLine) <==> |lines| < PreambleLines
    ensures r == Failure(NoStationName) <==> |lines| >= PreambleLines && |Fields(lines[1])| == 0
  {
    if |lines| < PreambleLines then Failure(MissingLine)
    else if |Fields(lines[1])| == 0 then Failure(NoStationName)
    else match FindMarker(lines, PreambleLines)
      case None => Failure(MissingMarker)
      case Some(k) => ReadTable(Records(lines[k + 1..]), parse)
  }

  /** No preamble line contributes: whatever the caption, the station line
      (as long as it has a field), and the lines before the marker say, the
      result is the reading of the lines after the marker. */
  lemma PreambleIgnored(caption: string, station: string, preamble: seq<string>,
                        marker: string, data: seq<string>, parse: ReadingParser)
    requires |Fields(station)| > 0
    requires forall j :: 0 <= j < |preamble| ==> !StartsWith(preamble[j], DataMarker)
    requires StartsWith(marker, DataMarker)
    ensures Ingest([caption, station] + preamble + [marker] + data, parse) == ReadTable(Records(data), parse)
  {
    var lines := [caption, station] + preamble + [marker] + data;
    var k := PreambleLines + |preamble|;
    assert lines[k] == marker;
    assert forall j :: PreambleLines <= j < k ==> lines[j] == preamble[j - PreambleLines];
    assert FindMarker(lines, PreambleLines) == Some(k);
    assert lines[k + 1..] == data;
  }

  /** The first record with fewer than two fields ends the table: nothing
      after it is read. */
  lemma {:induction false} TableEndsAtShortLine(data: seq<seq<string>>, stop: seq<string>,
                                                 rest: seq<seq<string>>, parse: ReadingParser)
    requires forall j :: 0 <= j < |data| ==> !EndsTable(data[j])
    requires EndsTable(stop)
    ensures ReadTable(data + [stop] + rest, parse) == ReadTable(data, parse)
    decreases |data|
  {
    var records := data + [stop] + rest;
    if |data| == 0 {
      assert records[0] == stop;
    } else {
      assert records[0] == data[0];
      assert records[1..] == data[1..] + [stop] + rest;
      TableEndsAtShortLine(data[1..], stop, rest, parse);
    }
  }
}
