/** Where the stations go in the workbook (XMLParse.java, lines 29, 269-277,
    299-303 and 314-318).

    Stations are laid out in sorted order, 200 to a sheet: station `i` goes to
    sheet `i / 200`, column `i % 200 + 1`, column 0 of every sheet being kept
    for the date. The number of sheets allocated is computed with a smaller
    divisor, 195, plus one. */
module Layout {

  /** Station columns per sheet (named NUMBER_OF_ROWS_EACH_SHEET in the
      program, though it counts columns). */
  const ColumnsPerSheet: nat := 200

  /** How much smaller than `ColumnsPerSheet` the divisor of the sheet count is. */
  const SheetCountMargin: nat := 5

  const SheetCountDivisor: nat := ColumnsPerSheet - SheetCountMargin

  /** Sheets allocated for `stations` stations: the fewest whose capacity,
      counted at `SheetCountDivisor` stations a sheet, exceeds the stations. */
  function SheetCount(stations: nat): (count: nat)
    ensures count >= 1
    ensures (count - 1) * SheetCountDivisor <= stations < count * SheetCountDivisor
  {
    stations / SheetCountDivisor + 1
  }

  /** The sheet of station `i`. */
  function SheetOf(i: nat): nat {
    i / ColumnsPerSheet
  }

  /** The column of station `i` on its sheet. */
  function ColumnOf(i: nat): nat {
    i % ColumnsPerSheet + 1
  }

  /** The station position a column of a sheet holds, when it holds one. */
  function StationAt(sheet: nat, column: nat): int {
    sheet * ColumnsPerSheet + column - 1
  }

  /** Sheets that the first `n` stations reach; sheet 0 is always reached. */
  function SheetsUsed(n: nat): nat {
    if n == 0 then 1 else SheetOf(n - 1) + 1
  }

  /** Station columns never touch the date column and never go past the last
      station column. */
  lemma ColumnInRange(i: nat)
    ensures 1 <= ColumnOf(i) <= ColumnsPerSheet
  {
  }

  /** Reading back the address of a station gives the station. */
  lemma AddressRoundTrip(i: nat)
    ensures StationAt(SheetOf(i), ColumnOf(i)) == i
  {
  }

  /** Every station column of every sheet is the address of exactly one
      station position. */
  lemma AddressInverse(sheet: nat, column: nat)
    requires 1 <= column <= ColumnsPerSheet
    ensures StationAt(sheet, column) >= 0
    ensures SheetOf(StationAt(sheet, column) as nat) == sheet
    ensures ColumnOf(StationAt(sheet, column) as nat) == column
  {
  }

  /** Two stations never share a (sheet, column) address. */
  lemma AddressInjective(i: nat, j: nat)
    requires SheetOf(i) == SheetOf(j) && ColumnOf(i) == ColumnOf(j)
    ensures i == j
  {
    AddressRoundTrip(i);
    AddressRoundTrip(j);
  }

  /** The sheets reached are the ceiling of the station count over the sheet
      width, and at least one. */
  lemma SheetsUsedIsCeiling(n: nat)
    ensures SheetsUsed(n) >= 1
    ensures n <= SheetsUsed(n) * ColumnsPerSheet
    ensures n > 0 ==> (SheetsUsed(n) - 1) * ColumnsPerSheet < n
  {
  }

  /** Reaching more stations never reaches fewer sheets. */
  lemma SheetsUsedMonotone(n: nat, m: nat)
    requires n <= m
    ensures SheetsUsed(n) <= SheetsUsed(m)
  {
  }

  /** The allocation is enough: it covers the sheets the stations reach. */
  lemma SheetCountCovers(stations: nat)
    ensures SheetCount(stations) >= 1
    ensures SheetsUsed(stations) <= SheetCount(stations)
    ensures stations <= SheetCount(stations) * ColumnsPerSheet
  {
    var q := stations / SheetCountDivisor;
    assert stations == SheetCountDivisor * q + stations % SheetCountDivisor;
    if stations > 0 {
      var p := (stations - 1) / ColumnsPerSheet;
      assert stations - 1 == ColumnsPerSheet * p + (stations - 1) % ColumnsPerSheet;
      assert SheetCountDivisor * p <= stations;
      assert p <= q;
    }
  }

  /** No station is ever addressed to a sheet that was not allocated. */
  lemma SheetInBounds(stations: nat, i: nat)
    requires i < stations
    ensures SheetOf(i) < SheetCount(stations)
  {
    SheetCountCovers(stations);
    SheetsUsedMonotone(i + 1, stations);
  }

  /** How one more station moves the address: to the first column of the next
      sheet after a full sheet, to the next column otherwise. */
  lemma AddressStep(n: nat)
    requires n > 0
    ensures n % ColumnsPerSheet == 0 ==> SheetOf(n) == SheetOf(n - 1) + 1 && ColumnOf(n) == 1
    ensures n % ColumnsPerSheet != 0 ==> SheetOf(n) == SheetOf(n - 1) && ColumnOf(n) == ColumnOf(n - 1) + 1
    ensures ColumnOf(n - 1) % ColumnsPerSheet == 0 <==> n % ColumnsPerSheet == 0
    ensures SheetsUsed(n + 1) == if n % ColumnsPerSheet == 0 then SheetsUsed(n) + 1 else SheetsUsed(n)
  {
  }

  /** `k` sheets hold `stations` at 200 a sheet although they would not at
      195 a sheet. */
  predicate SpareWidth(stations: nat, k: nat) {
    1 <= k && k * SheetCountDivisor <= stations <= k * ColumnsPerSheet
  }

  /** More sheets are allocated than the stations reach exactly when some
      number of sheets `k` has 195k <= stations <= 200k: 195 to 200 stations,
      390 to 400, and so on, and every count from 7605 on. */
  lemma SpareSheet(stations: nat)
    ensures SheetsUsed(stations) < SheetCount(stations) <==> exists k :: SpareWidth(stations, k)
  {
    if SheetsUsed(stations) < SheetCount(stations) {
      var k := SheetsUsed(stations);
      SheetsUsedIsCeiling(stations);
      assert k * SheetCountDivisor <= stations;
      assert SpareWidth(stations, k);
    }
    if exists k :: SpareWidth(stations, k) {
      var k: nat :| SpareWidth(stations, k);
      assert SheetsUsed(stations) <= k by {
        var q := (stations - 1) / ColumnsPerSheet;
        assert q * ColumnsPerSheet <= stations - 1 < k * ColumnsPerSheet;
        assert q < k;
      }
      assert k < SheetCount(stations);
    }
  }
}