/** The parsed page as the scraper sees it: tables of rows of `td`/`th` cells,
    each table and row with its list of CSS classes (empty when the tag has no
    `class` attribute). Cell text is the tag's `.text`. */
module Html {
  import opened Common

  datatype CellKind = Td | Th

  /** A cell, its `.text`, and the `href` of the first link inside it (`None`
      when it holds no link or the link has no `href`). */
  datatype Cell = Cell(kind: CellKind, text: string, link: Option<string>)

  datatype Row = Row(classes: seq<string>, cells: seq<Cell>)

  datatype Table = Table(classes: seq<string>, rows: seq<Row>)

  predicate IsTd(c: Cell) { c.kind == Td }

  /** `row.findAll('td')`. */
  function Tds(row: Row): seq<Cell>
  {
    Filter(IsTd, row.cells)
  }

  /** The table's cells in document order, row after row. */
  function AllCells(rows: seq<Row>): seq<Cell>
  {
    if rows == [] then [] else rows[0].cells + AllCells(rows[1..])
  }

  /** `find(kind)`: the first cell of the given kind, if any. */
  function FirstOfKind(cells: seq<Cell>, kind: CellKind): (r: Option<Cell>)
    ensures r.Some? ==> exists i :: 0 <= i < |cells| && cells[i] == r.value && r.value.kind == kind
                                    && forall j :: 0 <= j < i ==> cells[j].kind != kind
    ensures r.None? ==> forall j :: 0 <= j < |cells| ==> cells[j].kind != kind
  {
    if cells == [] then None
    else if cells[0].kind == kind then Some(cells[0])
    else
      var r := FirstOfKind(cells[1..], kind);
      assert r.Some? ==> exists i :: 0 <= i < |cells| - 1 && cells[1..][i] == r.value
                                     && forall j :: 0 <= j < i ==> cells[1..][j].kind != kind;
      if r.Some? then
        var i :| 0 <= i < |cells| - 1 && cells[1..][i] == r.value
                 && forall j :: 0 <= j < i ==> cells[1..][j].kind != kind;
        assert cells[i + 1] == r.value;
        r
      else r
  }
}
