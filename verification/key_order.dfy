/** The ascending date keys and station keys of the matrix
    (XMLParse.java, lines 265-268 and 278-291).

    Both are built by adding keys one by one to a sorted set, so the result
    does not depend on the order in which the matrix yields its keys. */
module KeyOrder {
  import opened SortedKeys
  import opened ObservationMatrix

  /** The date keys of the matrix in ascending order (lines 278-279). */
  method SortDates(m: Matrix) returns (dates: seq<string>)
    ensures StrictlySorted(dates)
    ensures Elems(dates) == m.Keys
  {
    dates := [];
    var pending := m.Keys;
    while pending != {}
      invariant pending <= m.Keys
      invariant StrictlySorted(dates)
      invariant Elems(dates) == m.Keys - pending
      decreases pending
    {
      var d :| d in pending;
      dates := Insert(dates, d);
      pending := pending - {d};
    }
  }

  /** The stations with a reading under one of the dates in `done`. */
  function StationsUnder(m: Matrix, done: set<string>): set<string>
    requires done <= m.Keys
  {
    set d, s | d in done && s in m[d] :: s
  }

  /** The station keys of every date, merged and in ascending order (lines
      283-291): the stations with at least one reading. */
  method SortStations(m: Matrix) returns (stations: seq<string>)
    ensures StrictlySorted(stations)
    ensures Elems(stations) == Stations(m)
  {
    stations := [];
    var pending := m.Keys;
    while pending != {}
      invariant pending <= m.Keys
      invariant StrictlySorted(stations)
      invariant Elems(stations) == StationsUnder(m, m.Keys - pending)
      decreases pending
    {
      var d :| d in pending;
      var before := StationsUnder(m, m.Keys - pending);
      var unseen := m[d].Keys;
      while unseen != {}
        invariant unseen <= m[d].Keys
        invariant StrictlySorted(stations)
        invariant Elems(stations) == before + (m[d].Keys - unseen)
        decreases unseen
      {
        var s :| s in unseen;
        if s !in stations {
          stations := Insert(stations, s);
        }
        unseen := unseen - {s};
      }
      pending := pending - {d};
      assert StationsUnder(m, m.Keys - pending) == before + m[d].Keys;
    }
    assert StationsUnder(m, m.Keys) == Stations(m);
  }
}
