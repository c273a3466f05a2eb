/** The spreadsheet the export writes into: an array of sheets, each a set of
    rows by row number, each row a set of cells by column number.

    Creating a row where one already exists replaces it with an empty row, as
    the sheet's row factory does; writing a cell needs the row to exist. */
module Workbook {
  import opened Results

  datatype Cell = Label(text: string) | Reading(value: real)

  type Row = map<nat, Cell>

  type Sheet = map<nat, Row>

  type Book = seq<Sheet>

  predicate HasRow(b: Book, sheet: nat, row: nat) {
    sheet < |b| && row in b[sheet]
  }

  /** The content of a cell, `None` when the cell (or its row) was never written. */
  function CellAt(b: Book, sheet: nat, row: nat, column: nat): Option<Cell> {
    if HasRow(b, sheet, row) && column in b[sheet][row] then Some(b[sheet][row][column]) else None
  }

  /** A workbook of `sheets` empty sheets. */
  function NewBook(sheets: nat): (b: Book)
    ensures |b| == sheets
    ensures forall k, r :: !HasRow(b, k, r)
  {
    seq(sheets, k => map[])
  }

  /** A new, empty row replaces whatever the row held; nothing else changes. */
  function CreateRow(b: Book, sheet: nat, row: nat): (b': Book)
    requires sheet < |b|
    ensures |b'| == |b|
    ensures HasRow(b', sheet, row)
    ensures forall c :: CellAt(b', sheet, row, c) == None
    ensures forall k, r :: k != sheet || r != row ==> HasRow(b', k, r) == HasRow(b, k, r)
    ensures forall k, r, c :: k != sheet || r != row ==> CellAt(b', k, r, c) == CellAt(b, k, r, c)
  {
    var empty: Row := map[];
    var s: Sheet := b[sheet][row := empty];
    b[sheet := s]
  }

  /** Writing a cell of an existing row; no row appears or disappears and no
      other cell changes. */
  function SetCell(b: Book, sheet: nat, row: nat, column: nat, cell: Cell): (b': Book)
    requires HasRow(b, sheet, row)
    ensures |b'| == |b|
    ensures CellAt(b', sheet, row, column) == Some(cell)
    ensures forall k, r :: HasRow(b', k, r) == HasRow(b, k, r)
    ensures forall k, r, c :: k != sheet || r != row || c != column ==> CellAt(b', k, r, c) == CellAt(b, k, r, c)
  {
    var cells: Row := b[sheet][row][column := cell];
    var s: Sheet := b[sheet][row := cells];
    b[sheet := s]
  }

  /** Workbooks that agree on their sheets, rows and cells are equal. */
  lemma SameContents(a: Book, b: Book)
    requires |a| == |b|
    requires forall k, r :: HasRow(a, k, r) == HasRow(b, k, r)
    requires forall k, r, c :: CellAt(a, k, r, c) == CellAt(b, k, r, c)
    ensures a == b
  {
    forall k | 0 <= k < |a|
      ensures a[k] == b[k]
    {
      forall r | r in a[k]
        ensures r in b[k] && a[k][r] == b[k][r]
      {
        assert HasRow(a, k, r) && HasRow(b, k, r);
        forall c | c in a[k][r]
          ensures c in b[k][r] && a[k][r][c] == b[k][r][c]
        {
          assert CellAt(a, k, r, c) == CellAt(b, k, r, c);
        }
        forall c | c in b[k][r]
          ensures c in a[k][r]
        {
          assert CellAt(a, k, r, c) == CellAt(b, k, r, c);
        }
      }
      assert forall r :: r in a[k] <==> HasRow(a, k, r);
      assert forall r :: r in b[k] <==> HasRow(b, k, r);
    }
  }
}
