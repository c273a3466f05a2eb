/** The sparse observation matrix: date key → station key → reading
    (XMLParse.java, line 173, filled at lines 238-246).

    A date is added the first time a reading for it arrives; a reading for a
    (date, station) pair that already has one replaces it. */
module ObservationMatrix {
  import opened Results

  /** The readings of one date, by station. */
  type DayReadings = map<string, real>

  type Matrix = map<string, DayReadings>

  /** One `put` of a reading into the matrix. */
  datatype Insertion = Insertion(date: string, station: string, reading: real)

  /** The reading stored for a (date, station) pair; absence is normal. */
  function ValueAt(m: Matrix, date: string, station: string): Option<real> {
    if date in m && station in m[date] then Some(m[date][station]) else None
  }

  /** Every date of the matrix has at least one reading: a date is only
      created together with the reading that introduces it. */
  predicate WellFormed(m: Matrix) {
    forall d :: d in m ==> m[d] != map[]
  }

  /** Every station that has a reading for some date. */
  function Stations(m: Matrix): set<string> {
    set d, s | d in m && s in m[d] :: s
  }

  /** The stations named by a sequence of insertions. */
  function InsertedStations(ins: seq<Insertion>): set<string> {
    set j | 0 <= j < |ins| :: ins[j].station
  }

  /** The dates named by a sequence of insertions. */
  function InsertedDates(ins: seq<Insertion>): set<string> {
    set j | 0 <= j < |ins| :: ins[j].date
  }

  /** Insert-or-overwrite: afterwards the pair holds the new reading, every
      other pair reads as before, and the date is a key. */
  function Record(m: Matrix, x: Insertion): (m': Matrix)
    ensures ValueAt(m', x.date, x.station) == Some(x.reading)
    ensures forall d, s :: d != x.date || s != x.station ==> ValueAt(m', d, s) == ValueAt(m, d, s)
    ensures m'.Keys == m.Keys + {x.date}
    ensures WellFormed(m) ==> WellFormed(m')
  {
    var day := if x.date in m then m[x.date] else map[];
    assert x.station in day[x.station := x.reading];
    m[x.date := day[x.station := x.reading]]
  }

  /** The reading of one pair after an insertion. */
  lemma RecordValue(m: Matrix, x: Insertion, d: string, s: string)
    ensures ValueAt(Record(m, x), d, s) ==
              if d == x.date && s == x.station then Some(x.reading) else ValueAt(m, d, s)
  {
  }

  /** An insertion adds its station to the stations of the matrix. */
  lemma RecordStations(m: Matrix, x: Insertion)
    ensures Stations(Record(m, x)) == Stations(m) + {x.station}
  {
    var m' := Record(m, x);
    forall s | s in Stations(m')
      ensures s in Stations(m) + {x.station}
    {
      var d :| d in m' && s in m'[d];
      if d != x.date || s != x.station {
        assert ValueAt(m', d, s).Some?;
        assert ValueAt(m, d, s).Some?;
      }
    }
    forall s | s in Stations(m)
      ensures s in Stations(m')
    {
      var d :| d in m && s in m[d];
      if d == x.date && s == x.station {
        assert ValueAt(m', d, s).Some?;
      } else {
        assert ValueAt(m, d, s).Some?;
        assert ValueAt(m', d, s).Some?;
      }
    }
    assert ValueAt(m', x.date, x.station).Some?;
  }

  /** The matrix after a sequence of insertions, in order. Its dates are the
      dates before plus those the insertions name. */
  function Apply(m: Matrix, ins: seq<Insertion>): (m': Matrix)
    ensures m'.Keys == m.Keys + InsertedDates(ins)
    decreases |ins|
  {
    if |ins| == 0 then m
    else
      InsertedSplit(ins);
      Record(Apply(m, ins[..|ins| - 1]), ins[|ins| - 1])
  }

  /** Insertions never leave a date without readings. */
  lemma {:induction false} ApplyWellFormed(m: Matrix, ins: seq<Insertion>)
    requires WellFormed(m)
    ensures WellFormed(Apply(m, ins))
    decreases |ins|
  {
    if |ins| > 0 {
      ApplyWellFormed(m, ins[..|ins| - 1]);
    }
  }

  /** The stations of the matrix after a sequence of insertions are the
      stations before plus those the insertions name. */
  lemma {:induction false} ApplyStations(m: Matrix, ins: seq<Insertion>)
    ensures Stations(Apply(m, ins)) == Stations(m) + InsertedStations(ins)
    decreases |ins|
  {
    if |ins| > 0 {
      var front := ins[..|ins| - 1];
      ApplyStations(m, front);
      RecordStations(Apply(m, front), ins[|ins| - 1]);
      InsertedSplit(ins);
    }
  }

  /** The dates and stations named by a sequence are those named by all but
      its last insertion, plus those of the last. */
  lemma InsertedSplit(ins: seq<Insertion>)
    requires |ins| > 0
    ensures InsertedDates(ins) == InsertedDates(ins[..|ins| - 1]) + {ins[|ins| - 1].date}
    ensures InsertedStations(ins) == InsertedStations(ins[..|ins| - 1]) + {ins[|ins| - 1].station}
  {
    var front := ins[..|ins| - 1];
    assert forall j :: 0 <= j < |front| ==> front[j] == ins[j];
  }

  /** Insertions that all name one station name no other. */
  lemma SingleStation(ins: seq<Insertion>, station: string)
    requires forall j :: 0 <= j < |ins| ==> ins[j].station == station
    ensures InsertedStations(ins) <= {station}
  {
  }

  /** The stations named by two runs of insertions, one after the other. */
  lemma InsertedStationsConcat(a: seq<Insertion>, b: seq<Insertion>)
    ensures InsertedStations(a + b) == InsertedStations(a) + InsertedStations(b)
  {
    assert forall j :: 0 <= j < |a| ==> (a + b)[j] == a[j];
    assert forall j :: 0 <= j < |b| ==> (a + b)[|a| + j] == b[j];
    forall s | s in InsertedStations(a + b)
      ensures s in InsertedStations(a) + InsertedStations(b)
    {
      var j :| 0 <= j < |a + b| && (a + b)[j].station == s;
      if j >= |a| {
        assert (a + b)[j] == b[j - |a|];
      }
    }
  }

  /** Two matrices with the same dates and the same reading (or absence of
      one) for every pair are the same matrix. */
  lemma SameReadings(a: Matrix, b: Matrix)
    requires a.Keys == b.Keys
    requires forall d, s :: ValueAt(a, d, s) == ValueAt(b, d, s)
    ensures a == b
  {
    forall d | d in a
      ensures a[d] == b[d]
    {
      assert forall s :: s in a[d] <==> ValueAt(a, d, s).Some?;
      assert forall s :: s in b[d] <==> ValueAt(b, d, s).Some?;
      assert forall s :: s in a[d] ==> a[d][s] == ValueAt(a, d, s).value;
      assert forall s :: s in b[d] ==> b[d][s] == ValueAt(b, d, s).value;
    }
  }

  /** Re-inserting a pair overwrites it: only the last write is kept. */
  lemma RecordOverwrites(m: Matrix, date: string, station: string, first: real, second: real)
    ensures Record(Record(m, Insertion(date, station, first)), Insertion(date, station, second))
         == Record(m, Insertion(date, station, second))
  {
    var a := Record(Record(m, Insertion(date, station, first)), Insertion(date, station, second));
    var b := Record(m, Insertion(date, station, second));
    SameReadings(a, b);
  }

  /** Insertions for different pairs can be made in either order. */
  lemma RecordCommutes(m: Matrix, x: Insertion, y: Insertion)
    requires x.date != y.date || x.station != y.station
    ensures Record(Record(m, x), y) == Record(Record(m, y), x)
  {
    var xy, yx := Record(Record(m, x), y), Record(Record(m, y), x);
    assert forall d, s :: ValueAt(xy, d, s) == ValueAt(yx, d, s) by {
      forall d, s
        ensures ValueAt(xy, d, s) == ValueAt(yx, d, s)
      {
        RecordValue(m, x, d, s);
        RecordValue(m, y, d, s);
        RecordValue(Record(m, x), y, d, s);
        RecordValue(Record(m, y), x, d, s);
      }
    }
    SameReadings(xy, yx);
  }

  /** A pair no insertion mentions keeps its reading (or its absence). */
  lemma {:induction false} ApplyUntouched(m: Matrix, ins: seq<Insertion>, date: string, station: string)
    requires !Mentions(ins, date, station)
    ensures ValueAt(Apply(m, ins), date, station) == ValueAt(m, date, station)
    decreases |ins|
  {
    if |ins| > 0 {
      MentionsSplit(ins, date, station);
      ApplyUntouched(m, ins[..|ins| - 1], date, station);
    }
  }

  /** Last write wins: the pair holds the reading of the last insertion that
      mentions it, whatever came before and whatever other pairs were
      inserted after. */
  lemma {:induction false} ApplyLastWins(m: Matrix, ins: seq<Insertion>, last: nat)
    requires last < |ins|
    requires forall j :: last < j < |ins| ==> ins[j].date != ins[last].date || ins[j].station != ins[last].station
    ensures ValueAt(Apply(m, ins), ins[last].date, ins[last].station) == Some(ins[last].reading)
    decreases |ins|
  {
    if last < |ins| - 1 {
      ApplyLastWins(m, ins[..|ins| - 1], last);
    }
  }

  /** Some insertion of the sequence names the pair. */
  predicate Mentions(ins: seq<Insertion>, date: string, station: string) {
    exists j :: 0 <= j < |ins| && ins[j].date == date && ins[j].station == station
  }

  /** A sequence names a pair when all but its last insertion do, or the
      last does. */
  lemma MentionsSplit(ins: seq<Insertion>, date: string, station: string)
    requires |ins| > 0
    ensures Mentions(ins, date, station) <==>
              || Mentions(ins[..|ins| - 1], date, station)
              || (ins[|ins| - 1].date == date && ins[|ins| - 1].station == station)
  {
    var front := ins[..|ins| - 1];
    if Mentions(front, date, station) {
      var j :| 0 <= j < |front| && front[j].date == date && front[j].station == station;
      assert ins[j] == front[j];
    }
    if Mentions(ins, date, station) {
      var j :| 0 <= j < |ins| && ins[j].date == date && ins[j].station == station;
      if j < |front| {
        assert front[j] == ins[j];
      }
    }
  }

  /** A pair has a reading after a sequence of insertions exactly when it
      had one before or some insertion names it. */
  lemma {:induction false} ApplyHasReading(m: Matrix, ins: seq<Insertion>, date: string, station: string)
    ensures ValueAt(Apply(m, ins), date, station).Some? <==>
              ValueAt(m, date, station).Some? || Mentions(ins, date, station)
    decreases |ins|
  {
    if |ins| > 0 {
      var front := ins[..|ins| - 1];
      ApplyHasReading(m, front, date, station);
      RecordValue(Apply(m, front), ins[|ins| - 1], date, station);
      MentionsSplit(ins, date, station);
    }
  }

  /** Every reading after a sequence of insertions was there before or was
      put by one of the insertions. */
  lemma {:induction false} ApplyValueSource(m: Matrix, ins: seq<Insertion>, date: string, station: string)
    ensures || ValueAt(Apply(m, ins), date, station) == ValueAt(m, date, station)
            || (&& ValueAt(Apply(m, ins), date, station).Some?
                && Insertion(date, station, ValueAt(Apply(m, ins), date, station).value) in ins)
    decreases |ins|
  {
    if |ins| > 0 {
      var front := ins[..|ins| - 1];
      ApplyValueSource(m, front, date, station);
      RecordValue(Apply(m, front), ins[|ins| - 1], date, station);
      assert forall x :: x in front ==> x in ins;
    }
  }

  /** In a well-formed matrix there are stations exactly when there are dates. */
  lemma NoStationsNoDates(m: Matrix)
    requires WellFormed(m)
    ensures Stations(m) == {} <==> m == map[]
  {
    if m != map[] {
      var d :| d in m;
      var s :| s in m[d];
      assert s in Stations(m);
    }
  }

  /** The reading of the last insertion naming the pair, if any names it. */
  function LastWrite(ins: seq<Insertion>, date: string, station: string): (r: Option<real>)
    ensures r.Some? ==> exists j :: && 0 <= j < |ins| && ins[j] == Insertion(date, station, r.value)
                                    && forall k :: j < k < |ins| ==> ins[k].date != date || ins[k].station != station
    ensures r.None? ==> forall j :: 0 <= j < |ins| ==> ins[j].date != date || ins[j].station != station
    decreases |ins|
  {
    if |ins| == 0 then None
    else
      var x := ins[|ins| - 1];
      if x.date == date && x.station == station then Some(x.reading)
      else
        var front := ins[..|ins| - 1];
        assert forall j :: 0 <= j < |front| ==> front[j] == ins[j];
        LastWrite(front, date, station)
  }

  /** After a sequence of insertions a pair holds the last reading written to
      it, or what it held before when none was. */
  lemma {:induction false} ApplyLast(m: Matrix, ins: seq<Insertion>, date: string, station: string)
    ensures ValueAt(Apply(m, ins), date, station) ==
              if LastWrite(ins, date, station).Some? then LastWrite(ins, date, station) else ValueAt(m, date, station)
    decreases |ins|
  {
    if |ins| > 0 {
      var front := ins[..|ins| - 1];
      ApplyLast(m, front, date, station);
      RecordValue(Apply(m, front), ins[|ins| - 1], date, station);
    }
  }

  /** The last write of two runs, one after the other: the second run's when
      it writes the pair, the first run's otherwise. */
  lemma {:induction false} LastWriteConcat(a: seq<Insertion>, b: seq<Insertion>, date: string, station: string)
    ensures LastWrite(a + b, date, station) ==
              if LastWrite(b, date, station).Some? then LastWrite(b, date, station) else LastWrite(a, date, station)
    decreases |b|
  {
    if |b| == 0 {
      assert a + b == a;
    } else {
      var front := b[..|b| - 1];
      assert (a + b)[..|a + b| - 1] == a + front;
      assert (a + b)[|a + b| - 1] == b[|b| - 1];
      LastWriteConcat(a, front, date, station);
    }
  }
}
