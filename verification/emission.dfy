/** Writing the matrix into the workbook (XMLParse.java, lines 263-328).

    The header pass writes every station key into row 0, moving to the next
    sheet every 200 stations. The data pass writes, for the date at sorted
    position `j`, row `j + 1` of every sheet the stations reach: the date in
    column 0 and each present reading in its station's column. Both passes
    keep their own counters; the contracts below show that the counters land
    every station on the sheet and column `Layout` assigns it, in both passes. */
module Emission {
  import opened Results
  import opened SortedKeys
  import opened ObservationMatrix
  import opened KeyOrder
  import opened Layout
  import opened Workbook

  /** Row 0 of a sheet once the first `n` stations have been written: each
      station column holds its station key. */
  function HeaderCell(stations: seq<string>, n: nat, sheet: nat, column: nat): Option<Cell>
    requires n <= |stations|
  {
    if 1 <= column <= ColumnsPerSheet && StationAt(sheet, column) < n
    then Some(Label(stations[StationAt(sheet, column)]))
    else None
  }

  /** A date's row on a sheet once the first `n` stations have been visited:
      the date in column 0, and each visited station's reading, when it has
      one, in its column. */
  function DataCell(date: string, day: DayReadings, stations: seq<string>, n: nat,
                    sheet: nat, column: nat): Option<Cell>
    requires n <= |stations|
  {
    if column == 0 then Some(Label(date))
    else if column <= ColumnsPerSheet && StationAt(sheet, column) < n
            && stations[StationAt(sheet, column)] in day
    then Some(Reading(day[stations[StationAt(sheet, column)]]))
    else None
  }

  /** Writing station `i` into the header fills exactly its own address. */
  lemma HeaderCellStep(stations: seq<string>, i: nat, sheet: nat, column: nat)
    requires i < |stations|
    ensures HeaderCell(stations, i + 1, sheet, column) ==
              if sheet == SheetOf(i) && column == ColumnOf(i) then Some(Label(stations[i]))
              else HeaderCell(stations, i, sheet, column)
  {
    AddressRoundTrip(i);
    if 1 <= column <= ColumnsPerSheet {
      AddressInverse(sheet, column);
    }
  }

  /** Visiting station `i` in a date's row fills at most its own address. */
  lemma DataCellStep(date: string, day: DayReadings, stations: seq<string>, i: nat,
                     sheet: nat, column: nat)
    requires i < |stations|
    ensures DataCell(date, day, stations, i + 1, sheet, column) ==
              if sheet == SheetOf(i) && column == ColumnOf(i) then
                (if stations[i] in day then Some(Reading(day[stations[i]])) else None)
              else DataCell(date, day, stations, i, sheet, column)
  {
    AddressRoundTrip(i);
    if 1 <= column <= ColumnsPerSheet {
      AddressInverse(sheet, column);
    }
  }

  /** Row 0 of the sheet a station opens is empty until that station is
      written. */
  lemma FreshHeaderRow(stations: seq<string>, n: nat, column: nat)
    requires n <= |stations| && n % ColumnsPerSheet == 0
    ensures HeaderCell(stations, n, SheetOf(n), column) == None
  {
    assert SheetOf(n) * ColumnsPerSheet == n;
  }

  /** A date's row on the sheet a station opens holds only the date until
      that station is visited. */
  lemma FreshDataRow(date: string, day: DayReadings, stations: seq<string>, n: nat, column: nat)
    requires n <= |stations| && n % ColumnsPerSheet == 0
    ensures DataCell(date, day, stations, n, SheetOf(n), column) ==
              if column == 0 then Some(Label(date)) else None
  {
    assert SheetOf(n) * ColumnsPerSheet == n;
  }

  /** The header pass (lines 295-304). Row 0 of every sheet the stations
      reach is created and holds each station key at its station's address;
      every other row, and row 0 of every other sheet, is left alone. */
  method HeaderPass(b0: Book, stations: seq<string>) returns (b: Book)
    requires SheetCount(|stations|) <= |b0|
    ensures |b| == |b0|
    ensures forall k: nat :: 0 <= k < SheetsUsed(|stations|) ==> HasRow(b, k, 0)
    ensures forall k: nat, c: nat :: 0 <= k < SheetsUsed(|stations|) ==>
              CellAt(b, k, 0, c) == HeaderCell(stations, |stations|, k, c)
    ensures forall k: nat, r: nat :: r != 0 || k >= SheetsUsed(|stations|) ==> HasRow(b, k, r) == HasRow(b0, k, r)
    ensures forall k: nat, r: nat, c: nat :: r != 0 || k >= SheetsUsed(|stations|) ==>
              CellAt(b, k, r, c) == CellAt(b0, k, r, c)
  {
    SheetCountCovers(|stations|);
    var sheetIndex := 0;
    b := CreateRow(b0, sheetIndex, 0);
    var row0Sheet := 0;
    var i := 0;
    while i < |stations|
      invariant 0 <= i <= |stations|
      invariant |b| == |b0|
      invariant sheetIndex == if i == 0 then 0 else SheetsUsed(i)
      invariant row0Sheet == if i == 0 then 0 else SheetOf(i - 1)
      invariant forall k: nat :: 0 <= k < SheetsUsed(i) ==> HasRow(b, k, 0)
      invariant forall k: nat, c: nat :: 0 <= k < SheetsUsed(i) ==> CellAt(b, k, 0, c) == HeaderCell(stations, i, k, c)
      invariant forall k: nat, r: nat :: r != 0 || k >= SheetsUsed(i) ==> HasRow(b, k, r) == HasRow(b0, k, r)
      invariant forall k: nat, r: nat, c: nat :: r != 0 || k >= SheetsUsed(i) ==> CellAt(b, k, r, c) == CellAt(b0, k, r, c)
    {
      if i > 0 {
        AddressStep(i);
      }
      SheetInBounds(|stations|, i);
      if i % ColumnsPerSheet == 0 {
        assert sheetIndex == SheetOf(i);
        row0Sheet := sheetIndex;
        b := CreateRow(b, sheetIndex, 0);
        forall c: nat
          ensures CellAt(b, sheetIndex, 0, c) == HeaderCell(stations, i, sheetIndex, c)
        {
          FreshHeaderRow(stations, i, c);
        }
        sheetIndex := sheetIndex + 1;
      }
      assert row0Sheet == SheetOf(i);
      assert forall k: nat, c: nat :: 0 <= k < SheetsUsed(i + 1) ==>
               CellAt(b, k, 0, c) == HeaderCell(stations, i, k, c);
      var before := b;
      b := SetCell(b, row0Sheet, 0, i % ColumnsPerSheet + 1, Label(stations[i]));
      forall k: nat, c: nat | 0 <= k < SheetsUsed(i + 1)
        ensures CellAt(b, k, 0, c) == HeaderCell(stations, i + 1, k, c)
      {
        HeaderCellStep(stations, i, k, c);
        assert CellAt(before, k, 0, c) == HeaderCell(stations, i, k, c);
      }
      i := i + 1;
    }
  }

  /** One date's row in the data pass (lines 307-327): the row is created on
      every sheet the stations reach, with the date in column 0 and each
      reading the date has at its station's address; a station without a
      reading leaves its cell unwritten. Other rows, and this row on sheets
      the stations do not reach, are left alone. */
  method DateRow(b0: Book, row: nat, date: string, day: DayReadings, stations: seq<string>)
    returns (b: Book)
    requires SheetCount(|stations|) <= |b0|
    ensures |b| == |b0|
    ensures forall k: nat :: 0 <= k < SheetsUsed(|stations|) ==> HasRow(b, k, row)
    ensures forall k: nat, c: nat :: 0 <= k < SheetsUsed(|stations|) ==>
              CellAt(b, k, row, c) == DataCell(date, day, stations, |stations|, k, c)
    ensures forall k: nat, r: nat :: r != row || k >= SheetsUsed(|stations|) ==> HasRow(b, k, r) == HasRow(b0, k, r)
    ensures forall k: nat, r: nat, c: nat :: r != row || k >= SheetsUsed(|stations|) ==>
              CellAt(b, k, r, c) == CellAt(b0, k, r, c)
  {
    SheetCountCovers(|stations|);
    var sheetIndex := 0;
    b := CreateRow(b0, sheetIndex, row);
    b := SetCell(b, sheetIndex, row, 0, Label(date));
    var rowSheet := 0;
    var stationIndex := 0;
    var n := 0;
    while n < |stations|
      invariant 0 <= n <= |stations|
      invariant |b| == |b0|
      invariant sheetIndex == if n == 0 then 0 else SheetsUsed(n)
      invariant rowSheet == if n == 0 then 0 else SheetOf(n - 1)
      invariant stationIndex == if n == 0 then 0 else ColumnOf(n - 1)
      invariant forall k: nat :: 0 <= k < SheetsUsed(n) ==> HasRow(b, k, row)
      invariant forall k: nat, c: nat :: 0 <= k < SheetsUsed(n) ==>
                  CellAt(b, k, row, c) == DataCell(date, day, stations, n, k, c)
      invariant forall k: nat, r: nat :: r != row || k >= SheetsUsed(n) ==> HasRow(b, k, r) == HasRow(b0, k, r)
      invariant forall k: nat, r: nat, c: nat :: r != row || k >= SheetsUsed(n) ==>
                  CellAt(b, k, r, c) == CellAt(b0, k, r, c)
    {
      if n > 0 {
        AddressStep(n);
      }
      SheetInBounds(|stations|, n);
      var wrap := stationIndex % ColumnsPerSheet == 0;
      stationIndex := stationIndex + 1;
      if wrap {
        assert sheetIndex == SheetOf(n) && n % ColumnsPerSheet == 0;
        b := CreateRow(b, sheetIndex, row);
        b := SetCell(b, sheetIndex, row, 0, Label(date));
        forall c: nat
          ensures CellAt(b, sheetIndex, row, c) == DataCell(date, day, stations, n, sheetIndex, c)
        {
          FreshDataRow(date, day, stations, n, c);
        }
        rowSheet := sheetIndex;
        sheetIndex := sheetIndex + 1;
        stationIndex := 1;
      }
      assert rowSheet == SheetOf(n) && stationIndex == ColumnOf(n);
      assert forall k: nat, c: nat :: 0 <= k < SheetsUsed(n + 1) ==>
               CellAt(b, k, row, c) == DataCell(date, day, stations, n, k, c);
      var before := b;
      var stationKey := stations[n];
      if stationKey in day {
        b := SetCell(b, rowSheet, row, stationIndex, Reading(day[stationKey]));
      }
      forall k: nat, c: nat | 0 <= k < SheetsUsed(n + 1)
        ensures CellAt(b, k, row, c) == DataCell(date, day, stations, n + 1, k, c)
      {
        DataCellStep(date, day, stations, n, k, c);
        assert CellAt(before, k, row, c) == DataCell(date, day, stations, n, k, c);
      }
      n := n + 1;
    }
  }

  /** The dates a data pass writes are all keys of the matrix. */
  predicate DatesOf(m: Matrix, dates: seq<string>) {
    forall j :: 0 <= j < |dates| ==> dates[j] in m
  }

  /** The data pass (lines 306-328): the date at position `j` gets row
      `j + 1`, the same row number on every sheet. */
  method DataPass(b0: Book, m: Matrix, dates: seq<string>, stations: seq<string>) returns (b: Book)
    requires DatesOf(m, dates)
    requires SheetCount(|stations|) <= |b0|
    ensures |b| == |b0|
    ensures forall k: nat, r: nat :: 0 <= k < SheetsUsed(|stations|) && 1 <= r <= |dates| ==> HasRow(b, k, r)
    ensures forall k: nat, r: nat, c: nat :: 0 <= k < SheetsUsed(|stations|) && 1 <= r <= |dates| ==>
              CellAt(b, k, r, c) == DataCell(dates[r - 1], m[dates[r - 1]], stations, |stations|, k, c)
    ensures forall k: nat, r: nat :: r == 0 || r > |dates| || k >= SheetsUsed(|stations|) ==>
              HasRow(b, k, r) == HasRow(b0, k, r)
    ensures forall k: nat, r: nat, c: nat :: r == 0 || r > |dates| || k >= SheetsUsed(|stations|) ==>
              CellAt(b, k, r, c) == CellAt(b0, k, r, c)
  {
    b := b0;
    var dateIndex := 0;
    while dateIndex < |dates|
      invariant 0 <= dateIndex <= |dates|
      invariant |b| == |b0|
      invariant forall k: nat, r: nat :: 0 <= k < SheetsUsed(|stations|) && 1 <= r <= dateIndex ==> HasRow(b, k, r)
      invariant forall k: nat, r: nat, c: nat :: 0 <= k < SheetsUsed(|stations|) && 1 <= r <= dateIndex ==>
                  CellAt(b, k, r, c) == DataCell(dates[r - 1], m[dates[r - 1]], stations, |stations|, k, c)
      invariant forall k: nat, r: nat :: r == 0 || r > dateIndex || k >= SheetsUsed(|stations|) ==>
                  HasRow(b, k, r) == HasRow(b0, k, r)
      invariant forall k: nat, r: nat, c: nat :: r == 0 || r > dateIndex || k >= SheetsUsed(|stations|) ==>
                  CellAt(b, k, r, c) == CellAt(b0, k, r, c)
    {
      var date := dates[dateIndex];
      dateIndex := dateIndex + 1;
      b := DateRow(b, dateIndex, date, m[date], stations);
    }
  }

  /** What the exported workbook holds, given the sorted dates and stations:
      the allocated sheets; row 0 and one row per date on every sheet the
      stations reach and no row anywhere else; station keys in row 0 and
      dates and readings in the date rows, each at the address `Layout`
      gives. */
  ghost predicate Laid(b: Book, m: Matrix, dates: seq<string>, stations: seq<string>)
    requires DatesOf(m, dates)
  {
    && |b| == SheetCount(|stations|)
    && (forall k: nat, r: nat :: HasRow(b, k, r) <==> k < SheetsUsed(|stations|) && r <= |dates|)
    && (forall k: nat, c: nat :: k < SheetsUsed(|stations|) ==>
          CellAt(b, k, 0, c) == HeaderCell(stations, |stations|, k, c))
    && (forall k: nat, r: nat, c: nat :: k < SheetsUsed(|stations|) && 1 <= r <= |dates| ==>
          CellAt(b, k, r, c) == DataCell(dates[r - 1], m[dates[r - 1]], stations, |stations|, k, c))
  }

  /** The whole export (lines 263-328): sort the keys, allocate the sheets
      from the number of distinct stations, then run the header pass and the
      data pass over a fresh workbook. */
  method Export(m: Matrix) returns (b: Book, dates: seq<string>, stations: seq<string>)
    ensures StrictlySorted(dates) && Elems(dates) == m.Keys
    ensures StrictlySorted(stations) && Elems(stations) == Stations(m)
    ensures DatesOf(m, dates)
    ensures Laid(b, m, dates, stations)
  {
    var stationCount := |Stations(m)|;
    b := NewBook(SheetCount(stationCount));
    dates := SortDates(m);
    stations := SortStations(m);
    SortedDistinct(stations);
    assert |stations| == stationCount;
    assert forall j :: 0 <= j < |dates| ==> dates[j] in Elems(dates);
    var blank := b;
    b := HeaderPass(b, stations);
    var headed := b;
    b := DataPass(b, m, dates, stations);
    forall k: nat, r: nat
      ensures HasRow(b, k, r) <==> k < SheetsUsed(|stations|) && r <= |dates|
    {
      if k >= SheetsUsed(|stations|) || r > |dates| {
        assert HasRow(b, k, r) == HasRow(headed, k, r) == HasRow(blank, k, r);
      }
    }
  }

  /** The reading a cell shows for an optional matrix value. */
  function ReadingCell(v: Option<real>): Option<Cell> {
    match v
    case None => None
    case Some(x) => Some(Reading(x))
  }

  /** Header and data agree: for station `i` and the date at position `j`,
      the station key heads column `ColumnOf(i)` of sheet `SheetOf(i)` (an
      allocated sheet), row `j + 1` of that sheet starts with the date, and
      the cell below the station key holds the matrix value for the pair,
      and is unwritten when there is none. */
  lemma Aligned(b: Book, m: Matrix, dates: seq<string>, stations: seq<string>, i: nat, j: nat)
    requires DatesOf(m, dates)
    requires Laid(b, m, dates, stations)
    requires i < |stations| && j < |dates|
    ensures SheetOf(i) < |b|
    ensures CellAt(b, SheetOf(i), 0, ColumnOf(i)) == Some(Label(stations[i]))
    ensures CellAt(b, SheetOf(i), j + 1, 0) == Some(Label(dates[j]))
    ensures CellAt(b, SheetOf(i), j + 1, ColumnOf(i)) == ReadingCell(ValueAt(m, dates[j], stations[i]))
  {
    SheetInBounds(|stations|, i);
    SheetsUsedMonotone(i + 1, |stations|);
    AddressRoundTrip(i);
    assert HeaderCell(stations, |stations|, SheetOf(i), ColumnOf(i)) == Some(Label(stations[i]));
  }

  /** The export is deterministic: whatever order the matrix yields its keys
      in, any two exports of the same matrix produce the same workbook. */
  lemma Deterministic(m: Matrix, b1: Book, d1: seq<string>, s1: seq<string>,
                      b2: Book, d2: seq<string>, s2: seq<string>)
    requires StrictlySorted(d1) && Elems(d1) == m.Keys && DatesOf(m, d1)
    requires StrictlySorted(s1) && Elems(s1) == Stations(m)
    requires StrictlySorted(d2) && Elems(d2) == m.Keys && DatesOf(m, d2)
    requires StrictlySorted(s2) && Elems(s2) == Stations(m)
    requires Laid(b1, m, d1, s1) && Laid(b2, m, d2, s2)
    ensures b1 == b2
  {
    SortedUnique(d1, d2);
    SortedUnique(s1, s2);
    forall k: nat, r: nat, c: nat
      ensures CellAt(b1, k, r, c) == CellAt(b2, k, r, c)
    {
      if !HasRow(b1, k, r) {
        assert !HasRow(b2, k, r);
      }
    }
    SameContents(b1, b2);
  }

  /** An empty matrix exports to a single sheet whose only row is an empty
      row 0. */
  lemma EmptyExport(b: Book, dates: seq<string>, stations: seq<string>)
    requires StrictlySorted(dates) && Elems(dates) == {}
    requires StrictlySorted(stations) && Elems(stations) == {}
    requires DatesOf(map[], dates)
    requires Laid(b, map[], dates, stations)
    ensures |b| == 1
    ensures forall r: nat :: HasRow(b, 0, r) <==> r == 0
    ensures forall k: nat, r: nat, c: nat :: CellAt(b, k, r, c) == None
  {
    SortedDistinct(dates);
    SortedDistinct(stations);
  }
}
