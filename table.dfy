/**
 * The unified table and the loader (insanity.py, lines 19-25): every sheet of
 * the workbook is read, each of its rows gets the sheet's name as its
 * category, and the sheets are concatenated in workbook order.
 */
module Table {
  import opened Wrappers

  /** One record after column renaming; a missing cell is `None`. */
  datatype Row = Row(
    category: string,
    subcategory: Option<string>,
    subsubcategory: Option<string>,
    item: Option<string>,
    client: Option<string>)

  /** A parsed sheet: its name and its rows in sheet order. */
  datatype Sheet = Sheet(name: string, rows: seq<Row>)

  /** `df_sheet["Category"] = sheet_name`: the category column is set (or overwritten) on every row. */
  function Tag(sheet: Sheet): seq<Row> {
    seq(|sheet.rows|, j requires 0 <= j < |sheet.rows| => sheet.rows[j].(category := sheet.name))
  }

  /** `pd.concat` of the tagged sheets, in sheet order. */
  function Flatten(sheets: seq<Sheet>): seq<Row> {
    if |sheets| == 0 then [] else Tag(sheets[0]) + Flatten(sheets[1..])
  }

  function TotalRows(sheets: seq<Sheet>): nat {
    if |sheets| == 0 then 0 else |sheets[0].rows| + TotalRows(sheets[1..])
  }

  /** The loop at lines 19-25: tags each sheet and appends it to the running table. */
  method Load(sheets: seq<Sheet>) returns (table: seq<Row>)
    ensures table == Flatten(sheets)
  {
    table := [];
    for i := 0 to |sheets|
      invariant table == Flatten(sheets[..i])
    {
      FlattenAppend(sheets[..i], sheets[i]);
      assert sheets[..i + 1] == sheets[..i] + [sheets[i]];
      table := table + Tag(sheets[i]);
    }
    assert sheets[..|sheets|] == sheets;
  }

  lemma {:induction false} FlattenAppend(sheets: seq<Sheet>, last: Sheet)
    ensures Flatten(sheets + [last]) == Flatten(sheets) + Tag(last)
  {
    if sheets == [] {
      assert sheets + [last] == [last];
      assert ([last])[1..] == [];
    } else {
      assert (sheets + [last])[1..] == sheets[1..] + [last];
      FlattenAppend(sheets[1..], last);
    }
  }

  /** The table has as many rows as all the sheets together. */
  lemma {:induction false} FlattenLength(sheets: seq<Sheet>)
    ensures |Flatten(sheets)| == TotalRows(sheets)
  {
    if sheets != [] {
      FlattenLength(sheets[1..]);
    }
  }

  /**
   * Row `j` of sheet `i` sits after the rows of the sheets before it, with
   * its category replaced by the name of sheet `i` and its other cells kept.
   */
  lemma {:induction false} FlattenAt(sheets: seq<Sheet>, i: nat, j: nat)
    requires i < |sheets| && j < |sheets[i].rows|
    ensures TotalRows(sheets[..i]) + j < |Flatten(sheets)|
    ensures Flatten(sheets)[TotalRows(sheets[..i]) + j] == sheets[i].rows[j].(category := sheets[i].name)
  {
    FlattenLength(sheets);
    if i == 0 {
      assert sheets[..0] == [];
    } else {
      FlattenAt(sheets[1..], i - 1, j);
      assert sheets[..i][1..] == sheets[1..][..i - 1];
      assert TotalRows(sheets[..i]) == |sheets[0].rows| + TotalRows(sheets[1..][..i - 1]);
    }
  }

  /** The categories in the table are exactly the names of the sheets that have rows. */
  lemma {:induction false} FlattenCategories(sheets: seq<Sheet>, c: string)
    ensures (exists row :: row in Flatten(sheets) && row.category == c)
        <==> (exists k :: 0 <= k < |sheets| && sheets[k].name == c && |sheets[k].rows| > 0)
  {
    if sheets != [] {
      FlattenCategories(sheets[1..], c);
      var tagged := Tag(sheets[0]);
      if sheets[0].name == c && |sheets[0].rows| > 0 {
        assert tagged[0] in Flatten(sheets);
      }
      forall row | row in tagged ensures row.category == sheets[0].name {
      }
      forall k | 1 <= k < |sheets| ensures sheets[k] == sheets[1..][k - 1] {
      }
      if exists k :: 1 <= k < |sheets| && sheets[k].name == c && |sheets[k].rows| > 0 {
        var k :| 1 <= k < |sheets| && sheets[k].name == c && |sheets[k].rows| > 0;
        assert sheets[1..][k - 1].name == c;
      }
    }
  }
}
