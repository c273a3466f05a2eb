/** One run of the harvester (XMLParse.java, lines 171-328): build the matrix
    from every station's periods, then write it into a fresh workbook.

    The catalog lookups and downloads that produce each station's periods,
    and the file the workbook is saved to, are outside the model: the run
    takes the stations' periods as input and returns the workbook. */
module Pipeline {
  import opened Results
  import opened Ingestion
  import opened ObservationMatrix
  import opened Harvesting
  import opened SortedKeys
  import opened Workbook
  import opened Emission

  /** A failed read ends the run without a workbook, with the error of the
      first export that failed. Otherwise the workbook is the export of the
      harvested matrix, over its sorted dates and stations; every station in
      it is one of the input stations. */
  method Run(feeds: seq<Feed>, parse: ReadingParser)
    returns (r: Result<Book, IngestError>, dates: seq<string>, stations: seq<string>)
    ensures r.Failure? <==> Harvest(feeds, parse).Failure?
    ensures r.Failure? ==> r.error == Harvest(feeds, parse).error
    ensures r.Success? ==>
              && StrictlySorted(dates) && Elems(dates) == Harvest(feeds, parse).value.Keys
              && StrictlySorted(stations) && Elems(stations) == Stations(Harvest(feeds, parse).value)
              && Elems(stations) <= FeedStations(feeds)
              && DatesOf(Harvest(feeds, parse).value, dates)
              && Laid(r.value, Harvest(feeds, parse).value, dates, stations)
  {
    match Harvest(feeds, parse)
    case Failure(e) =>
      r, dates, stations := Failure(e), [], [];
    case Success(m) =>
      var b;
      b, dates, stations := Export(m);
      r := Success(b);
  }
}
