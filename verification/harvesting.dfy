/** Collecting the observation matrix from every station's periods
    (XMLParse.java, lines 203-250).

    For each station in turn, and for each of its periods in turn, a period
    named "corrected-archive" has its CSV export read and every observation
    put into the matrix under that station; other periods are skipped. A
    failure while reading any export ends the whole run. */
module Harvesting {
  import opened Results
  import opened Ingestion
  import opened ObservationMatrix

  /** The only period whose data is kept. */
  const CorrectedArchive: string := "corrected-archive"

  /** One period of a station: its name and its CSV export, as lines. */
  datatype Period = Period(name: string, csv: seq<string>)

  /** One station: its identifier and its periods, in catalog order. */
  datatype Feed = Feed(station: string, periods: seq<Period>)

  predicate Qualifies(p: Period) {
    p.name == CorrectedArchive
  }

  function FeedStations(feeds: seq<Feed>): set<string> {
    set i | 0 <= i < |feeds| :: feeds[i].station
  }

  /** The observations of one export, as insertions for `station`. */
  function Tag(station: string, obs: seq<Observation>): (ins: seq<Insertion>)
    ensures |ins| == |obs|
    ensures forall j :: 0 <= j < |obs| ==> ins[j] == Insertion(obs[j].date, station, obs[j].reading)
  {
    seq(|obs|, j requires 0 <= j < |obs| => Insertion(obs[j].date, station, obs[j].reading))
  }

  /** Reading period `p` yields observation `o`: the period qualifies, its
      export reads, and `o` is one of its observations. */
  predicate Yields(p: Period, parse: ReadingParser, o: Observation) {
    Qualifies(p) && Ingest(p.csv, parse).Success? && o in Ingest(p.csv, parse).value
  }

  /** Some period of the sequence yields `o`. */
  predicate PeriodsYield(periods: seq<Period>, parse: ReadingParser, o: Observation) {
    exists j :: 0 <= j < |periods| && Yields(periods[j], parse, o)
  }

  /** Some feed of `station` has a period that yields `o`. */
  predicate HarvestYields(feeds: seq<Feed>, parse: ReadingParser, station: string, o: Observation) {
    exists i :: 0 <= i < |feeds| && feeds[i].station == station && PeriodsYield(feeds[i].periods, parse, o)
  }

  /** Tagging keeps every observation and adds nothing. */
  lemma TagExact(station: string, obs: seq<Observation>)
    ensures forall x :: x in Tag(station, obs) <==> x.station == station && Observation(x.date, x.reading) in obs
  {
    var ins := Tag(station, obs);
    forall x
      ensures x in ins <==> x.station == station && Observation(x.date, x.reading) in obs
    {
      if x in ins {
        var j :| 0 <= j < |ins| && ins[j] == x;
        assert obs[j] == Observation(x.date, x.reading);
      }
      if x.station == station && Observation(x.date, x.reading) in obs {
        var j :| 0 <= j < |obs| && obs[j] == Observation(x.date, x.reading);
        assert ins[j] == x;
      }
    }
  }

  /** The insertions one period contributes: none when it does not qualify;
      otherwise its export's failure, or exactly its observations tagged
      with the station. */
  function PeriodInsertions(station: string, p: Period, parse: ReadingParser): (r: Result<seq<Insertion>, IngestError>)
    ensures r.Success? <==> !Qualifies(p) || Ingest(p.csv, parse).Success?
    ensures r.Failure? ==> r.error == Ingest(p.csv, parse).error
    ensures r.Success? ==> forall x :: x in r.value <==>
              x.station == station && Yields(p, parse, Observation(x.date, x.reading))
  {
    if !Qualifies(p) then Success([])
    else match Ingest(p.csv, parse)
      case Failure(e) => Failure(e)
      case Success(obs) =>
        TagExact(station, obs);
        Success(Tag(station, obs))
  }

  /** What a sequence of periods yields: what its first period yields, and
      what the others yield. */
  lemma PeriodsYieldCons(periods: seq<Period>, parse: ReadingParser)
    requires |periods| > 0
    ensures forall o :: PeriodsYield(periods, parse, o) <==>
              Yields(periods[0], parse, o) || PeriodsYield(periods[1..], parse, o)
  {
    assert forall j :: 0 < j < |periods| ==> periods[1..][j - 1] == periods[j];
  }

  /** The first period's insertions followed by the others' are exactly what
      the whole sequence of periods yields. */
  lemma FeedExactStep(station: string, periods: seq<Period>, parse: ReadingParser,
                      first: seq<Insertion>, rest: seq<Insertion>)
    requires |periods| > 0
    requires forall x :: x in first <==>
               x.station == station && Yields(periods[0], parse, Observation(x.date, x.reading))
    requires forall x :: x in rest <==>
               x.station == station && PeriodsYield(periods[1..], parse, Observation(x.date, x.reading))
    ensures forall x :: x in first + rest <==>
              x.station == station && PeriodsYield(periods, parse, Observation(x.date, x.reading))
  {
    PeriodsYieldCons(periods, parse);
  }

  /** What the feeds yield for a station: what the first feed yields when it
      is that station's, and what the others yield. */
  lemma HarvestYieldsCons(feeds: seq<Feed>, parse: ReadingParser)
    requires |feeds| > 0
    ensures forall station, o :: HarvestYields(feeds, parse, station, o) <==>
              || (feeds[0].station == station && PeriodsYield(feeds[0].periods, parse, o))
              || HarvestYields(feeds[1..], parse, station, o)
  {
    assert forall i :: 0 < i < |feeds| ==> feeds[1..][i - 1] == feeds[i];
  }

  /** The insertions of a station's periods, in order. They can be made
      exactly when every qualifying period's export reads, and then they are
      exactly the observations of those exports, tagged with the station. */
  function FeedInsertions(station: string, periods: seq<Period>, parse: ReadingParser)
    : (r: Result<seq<Insertion>, IngestError>)
    ensures r.Success? <==> forall j :: 0 <= j < |periods| && Qualifies(periods[j]) ==>
              Ingest(periods[j].csv, parse).Success?
    ensures r.Success? ==> forall j :: 0 <= j < |r.value| ==> r.value[j].station == station
    ensures r.Success? ==> forall x :: x in r.value <==>
              x.station == station && PeriodsYield(periods, parse, Observation(x.date, x.reading))
    decreases |periods|
  {
    if |periods| == 0 then Success([])
    else match PeriodInsertions(station, periods[0], parse)
      case Failure(e) => Failure(e)
      case Success(first) =>
        match FeedInsertions(station, periods[1..], parse)
        case Failure(e) => Failure(e)
        case Success(rest) =>
          FeedExactStep(station, periods, parse, first, rest);
          Success(first + rest)
  }

  /** The insertions of all stations, station after station. They can be
      made exactly when every qualifying period of every station reads, and
      then they are exactly the observations some feed's periods yield,
      tagged with that feed's station; so they name only stations of the
      feeds. */
  function HarvestInsertions(feeds: seq<Feed>, parse: ReadingParser)
    : (r: Result<seq<Insertion>, IngestError>)
    ensures r.Success? <==>
              forall i, j :: 0 <= i < |feeds| && 0 <= j < |feeds[i].periods| && Qualifies(feeds[i].periods[j])
                ==> Ingest(feeds[i].periods[j].csv, parse).Success?
    ensures r.Success? ==> InsertedStations(r.value) <= FeedStations(feeds)
    ensures r.Success? ==> forall x :: x in r.value <==>
              HarvestYields(feeds, parse, x.station, Observation(x.date, x.reading))
    decreases |feeds|
  {
    if |feeds| == 0 then Success([])
    else match FeedInsertions(feeds[0].station, feeds[0].periods, parse)
      case Failure(e) => Failure(e)
      case Success(first) =>
        match HarvestInsertions(feeds[1..], parse)
        case Failure(e) => Failure(e)
        case Success(rest) =>
          assert forall i :: 0 < i < |feeds| ==> feeds[1..][i - 1] == feeds[i];
          FeedStationsCons(feeds);
          SingleStation(first, feeds[0].station);
          InsertedStationsConcat(first, rest);
          HarvestExactStep(feeds, parse, first, rest);
          Success(first + rest)
  }

  /** The stations of the feeds are the first feed's and the rest's. */
  lemma FeedStationsCons(feeds: seq<Feed>)
    requires |feeds| > 0
    ensures FeedStations(feeds) == {feeds[0].station} + FeedStations(feeds[1..])
  {
    assert forall i :: 0 < i < |feeds| ==> feeds[i] == feeds[1..][i - 1];
  }

  /** The first feed's insertions followed by the other feeds' are exactly
      what all the feeds yield. */
  lemma HarvestExactStep(feeds: seq<Feed>, parse: ReadingParser, first: seq<Insertion>, rest: seq<Insertion>)
    requires |feeds| > 0
    requires forall x :: x in first <==>
               x.station == feeds[0].station && PeriodsYield(feeds[0].periods, parse, Observation(x.date, x.reading))
    requires forall x :: x in rest <==>
               HarvestYields(feeds[1..], parse, x.station, Observation(x.date, x.reading))
    ensures forall x :: x in first + rest <==>
              HarvestYields(feeds, parse, x.station, Observation(x.date, x.reading))
  {
    HarvestYieldsCons(feeds, parse);
  }

  /** The matrix a run builds, starting from an empty one. A (date, station)
      pair has a reading exactly when some export of that station yields an
      observation for the date, and the reading it holds is one such
      observation's. */
  function Harvest(feeds: seq<Feed>, parse: ReadingParser): (r: Result<Matrix, IngestError>)
    ensures r.Success? <==> HarvestInsertions(feeds, parse).Success?
    ensures r.Success? ==> WellFormed(r.value)
    ensures r.Success? ==> Stations(r.value) <= FeedStations(feeds)
    ensures r.Success? ==> forall date, station ::
              ValueAt(r.value, date, station).Some? <==>
                exists v :: HarvestYields(feeds, parse, station, Observation(date, v))
    ensures r.Success? ==> forall date, station :: ValueAt(r.value, date, station).Some? ==>
              HarvestYields(feeds, parse, station, Observation(date, ValueAt(r.value, date, station).value))
  {
    match HarvestInsertions(feeds, parse)
    case Failure(e) => Failure(e)
    case Success(ins) =>
      ApplyStations(map[], ins);
      ApplyWellFormed(map[], ins);
      assert Stations(map[]) == {};
      HarvestContents(feeds, parse, ins);
      Success(Apply(map[], ins))
  }

  /** Applying insertions that are exactly what the feeds yield gives a
      matrix whose readings are exactly those the feeds yield. */
  lemma HarvestContents(feeds: seq<Feed>, parse: ReadingParser, ins: seq<Insertion>)
    requires forall x :: x in ins <==> HarvestYields(feeds, parse, x.station, Observation(x.date, x.reading))
    ensures forall date, station ::
              ValueAt(Apply(map[], ins), date, station).Some? <==>
                exists v :: HarvestYields(feeds, parse, station, Observation(date, v))
    ensures forall date, station :: ValueAt(Apply(map[], ins), date, station).Some? ==>
              HarvestYields(feeds, parse, station, Observation(date, ValueAt(Apply(map[], ins), date, station).value))
  {
    var m := Apply(map[], ins);
    forall date, station | ValueAt(m, date, station).Some?
      ensures HarvestYields(feeds, parse, station, Observation(date, ValueAt(m, date, station).value))
    {
      ApplyValueSource(map[], ins, date, station);
      assert Insertion(date, station, ValueAt(m, date, station).value) in ins;
    }
    forall date, station
      ensures ValueAt(m, date, station).Some? <==>
                exists v :: HarvestYields(feeds, parse, station, Observation(date, v))
    {
      ApplyHasReading(map[], ins, date, station);
      if exists v :: HarvestYields(feeds, parse, station, Observation(date, v)) {
        var v :| HarvestYields(feeds, parse, station, Observation(date, v));
        var x := Insertion(date, station, v);
        assert x in ins;
        var j :| 0 <= j < |ins| && ins[j] == x;
        assert Mentions(ins, date, station);
      }
    }
  }


  /** The periods that qualify, in order. */
  function QualifyingPeriods(periods: seq<Period>): seq<Period>
    decreases |periods|
  {
    if |periods| == 0 then []
    else (if Qualifies(periods[0]) then [periods[0]] else []) + QualifyingPeriods(periods[1..])
  }

  /** The feeds with every non-qualifying period removed. */
  function QualifyingOnly(feeds: seq<Feed>): seq<Feed>
    decreases |feeds|
  {
    if |feeds| == 0 then []
    else [Feed(feeds[0].station, QualifyingPeriods(feeds[0].periods))] + QualifyingOnly(feeds[1..])
  }

  lemma {:induction false} FeedIgnoresOtherPeriods(station: string, periods: seq<Period>, parse: ReadingParser)
    ensures FeedInsertions(station, periods, parse) == FeedInsertions(station, QualifyingPeriods(periods), parse)
    decreases |periods|
  {
    if |periods| > 0 {
      FeedIgnoresOtherPeriods(station, periods[1..], parse);
      var q := QualifyingPeriods(periods);
      if Qualifies(periods[0]) {
        assert q[0] == periods[0] && q[1..] == QualifyingPeriods(periods[1..]);
      } else {
        assert q == QualifyingPeriods(periods[1..]);
        match FeedInsertions(station, periods[1..], parse)
        case Failure(e) =>
        case Success(rest) => assert [] + rest == rest;
      }
    }
  }

  /** Only "corrected-archive" periods contribute: removing every other
      period, whatever its export holds, leaves the run's insertions (and so
      its matrix) as they were. */
  lemma {:induction false} OnlyCorrectedArchiveCounts(feeds: seq<Feed>, parse: ReadingParser)
    ensures HarvestInsertions(feeds, parse) == HarvestInsertions(QualifyingOnly(feeds), parse)
    ensures Harvest(feeds, parse) == Harvest(QualifyingOnly(feeds), parse)
    decreases |feeds|
  {
    if |feeds| > 0 {
      OnlyCorrectedArchiveCounts(feeds[1..], parse);
      FeedIgnoresOtherPeriods(feeds[0].station, feeds[0].periods, parse);
      var q := QualifyingOnly(feeds);
      assert q[0] == Feed(feeds[0].station, QualifyingPeriods(feeds[0].periods));
      assert q[1..] == QualifyingOnly(feeds[1..]);
    }
  }

  /** The reading of the last observation of `obs` for `date`. */
  function LastIn(obs: seq<Observation>, date: string): (r: Option<real>)
    ensures r.Some? ==> exists k :: && 0 <= k < |obs| && obs[k] == Observation(date, r.value)
                                    && forall k' :: k < k' < |obs| ==> obs[k'].date != date
    ensures r.None? ==> forall k :: 0 <= k < |obs| ==> obs[k].date != date
    decreases |obs|
  {
    if |obs| == 0 then None
    else if obs[|obs| - 1].date == date then Some(obs[|obs| - 1].reading)
    else
      var front := obs[..|obs| - 1];
      var r := LastIn(front, date);
      if r.Some? then
        assert exists k :: && 0 <= k < |obs| && obs[k] == Observation(date, r.value)
                           && forall k' :: k < k' < |obs| ==> obs[k'].date != date by {
          var k :| && 0 <= k < |front| && front[k] == Observation(date, r.value)
                   && forall k' :: k < k' < |front| ==> front[k'].date != date;
          assert obs[k] == front[k];
          forall k' | k < k' < |obs|
            ensures obs[k'].date != date
          {
            if k' < |front| {
              assert obs[k'] == front[k'];
            }
          }
        }
        r
      else
        assert forall k :: 0 <= k < |obs| ==> obs[k].date != date by {
          forall k | 0 <= k < |front|
            ensures obs[k].date != date
          {
            assert obs[k] == front[k];
          }
        }
        r
  }

  /** The last reading for `date` in a period's export, when the period
      qualifies and its export reads. */
  function PeriodReading(p: Period, parse: ReadingParser, date: string): Option<real> {
    if Qualifies(p) && Ingest(p.csv, parse).Success? then LastIn(Ingest(p.csv, parse).value, date) else None
  }

  /** The last of a sequence of optional readings that is present. */
  function LastPresent(rs: seq<Option<real>>): (r: Option<real>)
    ensures r.Some? ==> exists j :: && 0 <= j < |rs| && rs[j] == r
                                    && forall j' :: j < j' < |rs| ==> rs[j'].None?
    ensures r.None? ==> forall j :: 0 <= j < |rs| ==> rs[j].None?
    decreases |rs|
  {
    if |rs| == 0 then None
    else
      var rest := LastPresent(rs[1..]);
      assert forall j :: 0 < j < |rs| ==> rs[1..][j - 1] == rs[j];
      if rest.Some? then rest else rs[0]
  }

  /** The reading for `date` of each period. */
  function PeriodReadings(periods: seq<Period>, parse: ReadingParser, date: string): (rs: seq<Option<real>>)
    ensures |rs| == |periods|
    ensures forall j :: 0 <= j < |periods| ==> rs[j] == PeriodReading(periods[j], parse, date)
  {
    seq(|periods|, j requires 0 <= j < |periods| => PeriodReading(periods[j], parse, date))
  }

  /** The reading for `date` of the last period that has one. */
  function LastInPeriods(periods: seq<Period>, parse: ReadingParser, date: string): (r: Option<real>)
    ensures r.Some? ==> exists j :: && 0 <= j < |periods| && PeriodReading(periods[j], parse, date) == r
                                    && forall j' :: j < j' < |periods| ==> PeriodReading(periods[j'], parse, date).None?
    ensures r.None? ==> forall j :: 0 <= j < |periods| ==> PeriodReading(periods[j], parse, date).None?
  {
    LastPresent(PeriodReadings(periods, parse, date))
  }

  /** The reading of a feed for (`date`, `station`): its last period's that
      has one, when the feed is that station's. */
  function FeedReading(feed: Feed, parse: ReadingParser, date: string, station: string): Option<real> {
    if feed.station == station then LastInPeriods(feed.periods, parse, date) else None
  }

  /** The reading of each feed for (`date`, `station`). */
  function FeedReadings(feeds: seq<Feed>, parse: ReadingParser, date: string, station: string): (rs: seq<Option<real>>)
    ensures |rs| == |feeds|
    ensures forall i :: 0 <= i < |feeds| ==> rs[i] == FeedReading(feeds[i], parse, date, station)
  {
    seq(|feeds|, i requires 0 <= i < |feeds| => FeedReading(feeds[i], parse, date, station))
  }

  /** The reading for (`date`, `station`) of the last feed of that station
      whose periods have one: the reading the source's put order (feed after
      feed, period after period, line after line) leaves in the matrix. */
  function LastInFeeds(feeds: seq<Feed>, parse: ReadingParser, date: string, station: string): (r: Option<real>)
    ensures r.Some? ==> exists i :: && 0 <= i < |feeds| && FeedReading(feeds[i], parse, date, station) == r
                                    && forall i' :: i < i' < |feeds| ==> FeedReading(feeds[i'], parse, date, station).None?
    ensures r.None? ==> forall i :: 0 <= i < |feeds| ==> FeedReading(feeds[i], parse, date, station).None?
  {
    LastPresent(FeedReadings(feeds, parse, date, station))
  }

  /** The last period with a reading is among the later ones when they have
      one, and is the first period otherwise. */
  lemma LastInPeriodsCons(periods: seq<Period>, parse: ReadingParser, date: string)
    requires |periods| > 0
    ensures LastInPeriods(periods, parse, date) ==
              if LastInPeriods(periods[1..], parse, date).Some? then LastInPeriods(periods[1..], parse, date)
              else PeriodReading(periods[0], parse, date)
  {
    assert PeriodReadings(periods, parse, date)[1..] == PeriodReadings(periods[1..], parse, date);
  }

  /** The same for feeds. */
  lemma LastInFeedsCons(feeds: seq<Feed>, parse: ReadingParser, date: string, station: string)
    requires |feeds| > 0
    ensures LastInFeeds(feeds, parse, date, station) ==
              if LastInFeeds(feeds[1..], parse, date, station).Some? then LastInFeeds(feeds[1..], parse, date, station)
              else FeedReading(feeds[0], parse, date, station)
  {
    assert FeedReadings(feeds, parse, date, station)[1..] == FeedReadings(feeds[1..], parse, date, station);
  }

  /** The last write of a tagged export is its last observation for the date,
      for the tagged station only. */
  lemma {:induction false} TagLast(station: string, obs: seq<Observation>, date: string, s: string)
    ensures LastWrite(Tag(station, obs), date, s) == if s == station then LastIn(obs, date) else None
    decreases |obs|
  {
    if |obs| > 0 {
      var front := obs[..|obs| - 1];
      var ins := Tag(station, obs);
      assert ins[..|ins| - 1] == Tag(station, front);
      TagLast(station, front, date, s);
    }
  }

  /** The last write of a station's insertions is the reading of its last
      period that has one. */
  lemma {:induction false} FeedLast(station: string, periods: seq<Period>, parse: ReadingParser, date: string, s: string)
    requires FeedInsertions(station, periods, parse).Success?
    ensures LastWrite(FeedInsertions(station, periods, parse).value, date, s) ==
              if s == station then LastInPeriods(periods, parse, date) else None
    decreases |periods|
  {
    if |periods| > 0 {
      var p := periods[0];
      var first := PeriodInsertions(station, p, parse).value;
      var rest := FeedInsertions(station, periods[1..], parse).value;
      assert FeedInsertions(station, periods, parse).value == first + rest;
      LastWriteConcat(first, rest, date, s);
      FeedLast(station, periods[1..], parse, date, s);
      LastInPeriodsCons(periods, parse, date);
      if Qualifies(p) {
        TagLast(station, Ingest(p.csv, parse).value, date, s);
      }
    }
  }

  /** The last write of all the insertions of a run is the reading of the
      last feed of the station that has one. */
  lemma {:induction false} HarvestLast(feeds: seq<Feed>, parse: ReadingParser, date: string, station: string)
    requires HarvestInsertions(feeds, parse).Success?
    ensures LastWrite(HarvestInsertions(feeds, parse).value, date, station) == LastInFeeds(feeds, parse, date, station)
    decreases |feeds|
  {
    if |feeds| > 0 {
      var first := FeedInsertions(feeds[0].station, feeds[0].periods, parse).value;
      var rest := HarvestInsertions(feeds[1..], parse).value;
      assert HarvestInsertions(feeds, parse).value == first + rest;
      LastWriteConcat(first, rest, date, station);
      HarvestLast(feeds[1..], parse, date, station);
      FeedLast(feeds[0].station, feeds[0].periods, parse, date, station);
      LastInFeedsCons(feeds, parse, date, station);
    }
  }

  /** Last report wins: the matrix of a run holds, for every (date, station)
      pair, the reading of the last record for the date in the last
      qualifying period of the last feed of the station that reports it, and
      nothing when none does. */
  lemma HarvestLastWins(feeds: seq<Feed>, parse: ReadingParser, date: string, station: string)
    requires Harvest(feeds, parse).Success?
    ensures ValueAt(Harvest(feeds, parse).value, date, station) == LastInFeeds(feeds, parse, date, station)
  {
    var ins := HarvestInsertions(feeds, parse).value;
    assert Harvest(feeds, parse).value == Apply(map[], ins);
    ApplyLast(map[], ins, date, station);
    HarvestLast(feeds, parse, date, station);
  }
}
