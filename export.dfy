/**
 * The exporter (insanity.py, lines 58-66): a workbook with one sheet named
 * "Items", a fixed header row, then one five-cell row per selected record,
 * and the count of exported records.
 */
module Export {
  import opened Wrappers
  import opened Table
  import opened Text
  import opened Schema

  /** A written cell; a missing value is an empty cell. */
  type Cell = Option<string>

  const HeaderNames: seq<string> := ["Category", "Subcategory", "Sub-subcategory", "Item", "Client"]

  const HeaderRow: seq<Cell> := [Some("Category"), Some("Subcategory"), Some("Sub-subcategory"), Some("Item"), Some("Client")]

  /** The cells `ws.append` receives for one record, in header order. */
  function RowCells(row: Row): (cells: seq<Cell>)
    ensures |cells| == |HeaderRow|
    ensures DecodeRow(cells) == Some(row)
  {
    [Some(row.category), row.subcategory, row.subsubcategory, row.item, row.client]
  }

  /** The rows written to the sheet: the header, then one row per record in selection order. */
  function Layout(items: seq<Row>): (rows: seq<seq<Cell>>)
    ensures |rows| == |items| + 1 && rows[0] == HeaderRow
    ensures forall i :: 0 <= i < |items| ==> DecodeRow(rows[i + 1]) == Some(items[i])
  {
    [HeaderRow] + seq(|items|, i requires 0 <= i < |items| => RowCells(items[i]))
  }

  /** The worksheet being filled; `Append` is `ws.append`. */
  class Worksheet {
    const title: string
    var rows: seq<seq<Cell>>

    constructor (title: string)
      ensures this.title == title && rows == []
    {
      this.title := title;
      rows := [];
    }

    method Append(row: seq<Cell>)
      modifies this
      ensures rows == old(rows) + [row]
    {
      rows := rows + [row];
    }
  }

  /**
   * `export_items_to_excel` without the file: a fresh sheet named "Items"
   * holding the layout of `items`, and the number of records for the report.
   */
  method ExportItems(items: seq<Row>) returns (ws: Worksheet, count: nat)
    ensures fresh(ws) && ws.title == "Items"
    ensures ws.rows == Layout(items)
    ensures count == |items|
  {
    ws := new Worksheet("Items");
    ws.Append(HeaderRow);
    for i := 0 to |items|
      invariant ws.title == "Items"
      invariant ws.rows == [HeaderRow] + seq(i, k requires 0 <= k < i => RowCells(items[k]))
    {
      ws.Append(RowCells(items[i]));
    }
    count := |items|;
  }

  /** Reads one written row back as a record (the inverse of `RowCells`). */
  function DecodeRow(cells: seq<Cell>): Option<Row> {
    if |cells| == 5 && cells[0].Some? then Some(Row(cells[0].value, cells[1], cells[2], cells[3], cells[4])) else None
  }

  function DecodeRows(rows: seq<seq<Cell>>): Option<seq<Row>> {
    if |rows| == 0 then Some([])
    else match (DecodeRow(rows[0]), DecodeRows(rows[1..]))
      case (Some(r), Some(rest)) => Some([r] + rest)
      case _ => None
  }

  /** Reads a sheet written with the export header back into records; another header is refused. */
  function ReadBack(rows: seq<seq<Cell>>): Option<seq<Row>> {
    if |rows| >= 1 && rows[0] == HeaderRow then DecodeRows(rows[1..]) else None
  }

  lemma {:induction false} DecodeRowsCells(items: seq<Row>)
    ensures DecodeRows(seq(|items|, i requires 0 <= i < |items| => RowCells(items[i]))) == Some(items)
  {
    var body := seq(|items|, i requires 0 <= i < |items| => RowCells(items[i]));
    if items != [] {
      DecodeRowsCells(items[1..]);
      assert body[1..] == seq(|items[1..]|, i requires 0 <= i < |items[1..]| => RowCells(items[1..][i]));
      assert items == [items[0]] + items[1..];
    }
  }

  /** Reading the exported rows back gives the selected records, field for field and in order. */
  lemma ExportRoundTrip(items: seq<Row>)
    ensures ReadBack(Layout(items)) == Some(items)
  {
    DecodeRowsCells(items);
    assert Layout(items)[1..] == seq(|items|, i requires 0 <= i < |items| => RowCells(items[i]));
  }

  /** The exported header names are already canonical: column detection and renaming leave them as they are. */
  lemma ExportHeaderCanonical(cols: seq<string>)
    requires cols == HeaderNames
    ensures Normalize(cols) == cols
  {
    HeaderItem(cols);
    HeaderClient(cols);
    HeaderSub(cols);
    HeaderSubSub(cols);
  }

  lemma HeaderLower(cols: seq<string>)
    requires cols == HeaderNames
    ensures Lower(cols[0]) == "category" && Lower(cols[1]) == "subcategory" && Lower(cols[2]) == "sub-subcategory"
    ensures Lower(cols[3]) == "item" && Lower(cols[4]) == "client"
  {
  }

  lemma HeaderItem(cols: seq<string>)
    requires cols == HeaderNames
    ensures ItemColumn(cols) == Some("Item")
  {
    HeaderLower(cols);
    assert IsItemHeader(cols[3]);
  }

  lemma HeaderClient(cols: seq<string>)
    requires cols == HeaderNames
    ensures ClientColumn(cols) == Some("Client")
  {
    HeaderLower(cols);
    assert IsClientHeader(cols[4]);
  }

  lemma HeaderSub(cols: seq<string>)
    requires cols == HeaderNames
    ensures SubcategoryColumn(cols) == "Subcategory"
  {
    HeaderLower(cols);
    forall c | c in cols ensures !IsSubcategoryHeader(c) {
      if c == cols[1] || c == cols[2] {
        assert "sub" <= Lower(c);
        SubPrefixNotSubcategory(c);
      } else {
        assert 's' !in Lower(c);
        LacksChar(Lower(c), "sub", 's');
      }
    }
  }

  lemma HeaderSubSub(cols: seq<string>)
    requires cols == HeaderNames
    ensures SubSubcategoryColumn(cols) == "Sub-subcategory"
  {
    HeaderLower(cols);
    LacksChar(Lower(cols[0]), "sub-sub", 's');
    LacksChar(Lower(cols[1]), "sub-sub", '-');
    assert IsSubSubcategoryHeader(cols[2]);
  }

  /**
   * Loading an exported workbook again: its one sheet "Items" gives back the
   * exported records with "Items" as their category and all other fields kept.
   */
  lemma ReloadExport(items: seq<Row>)
    ensures ReadBack(Layout(items)) == Some(items)
    ensures |Flatten([Sheet("Items", items)])| == |items|
    ensures forall i :: 0 <= i < |items| ==> Flatten([Sheet("Items", items)])[i] == items[i].(category := "Items")
  {
    ExportRoundTrip(items);
    assert [Sheet("Items", items)][1..] == [];
    assert Flatten([Sheet("Items", items)]) == Tag(Sheet("Items", items)) + [];
  }
}
