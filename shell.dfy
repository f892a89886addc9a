/**
 * Command classification for the interactive loop (insanity.py, lines
 * 78-159): what one typed line asks for, before anything is printed.
 */
module Shell {
  import opened Wrappers
  import opened Seqs
  import opened Text
  import opened Sorting
  import opened Table
  import opened Query

  /** What the loop does with a line; the listing actions carry what would be printed. */
  datatype Action =
    | Quit
    | ListCategories(categories: seq<string>)
    | AskForSelection
    | ListSubcategories(category: string, subcategories: seq<string>)
    | ListSubSubcategories(subcategory: string, parent: string, subsubcategories: seq<string>)
    | ListItems(items: seq<Row>)
    | Unknown

  /** The stripped line equals keyword `kw` ignoring letter case (`cmd.lower() == kw`). */
  predicate IsKeyword(line: string, kw: string) {
    Lower(Strip(line)) == kw
  }

  predicate AnyKeyword(line: string) {
    IsKeyword(line, "bye") || IsKeyword(line, "insanity") || IsKeyword(line, "fix the insanity")
  }

  /** `df[df["Subcategory"] == sub]["Category"].iloc[0]`: the category of the first row with subcategory `sub`. */
  function ParentCategory(t: seq<Row>, sub: string): (c: string)
    requires HasValue(t, Subcategory, sub)
    ensures exists i :: 0 <= i < |t| && t[i].subcategory == Some(sub) && t[i].category == c
                        && forall j :: 0 <= j < i ==> t[j].subcategory != Some(sub)
  {
    if t[0].subcategory == Some(sub) then t[0].category
    else
      var row :| row in t && Has(row, Subcategory, sub);
      assert row in t[1..];
      var c := ParentCategory(t[1..], sub);
      var i :| 0 <= i < |t[1..]| && t[1..][i].subcategory == Some(sub) && t[1..][i].category == c
               && forall j :: 0 <= j < i ==> t[1..][j].subcategory != Some(sub);
      assert t[i + 1] == t[1..][i];
      assert forall j :: 1 <= j < i + 1 ==> t[j] == t[1..][j - 1];
      c
  }

  /**
   * The dispatch of lines 83-159. The three keywords are tested first, on
   * the lower-cased stripped line; then the stripped line, with its letter
   * case kept, is looked up as a category, else a subcategory, else a
   * sub-subcategory.
   */
  function Classify(t: seq<Row>, line: string): (a: Action)
    ensures a.Quit? <==> IsKeyword(line, "bye")
    ensures a.ListCategories? <==> !IsKeyword(line, "bye") && IsKeyword(line, "insanity")
    ensures a.ListCategories? ==> a.categories == MainCategories(t)
    ensures a.AskForSelection? <==> !IsKeyword(line, "bye") && !IsKeyword(line, "insanity") && IsKeyword(line, "fix the insanity")
    ensures a.Unknown? <==> !AnyKeyword(line) && !HasValue(t, Category, Strip(line))
                            && !HasValue(t, Subcategory, Strip(line)) && !HasValue(t, SubSubcategory, Strip(line))
    ensures a.ListSubcategories? ==> !AnyKeyword(line) && HasValue(t, Category, Strip(line)) && a.category == Strip(line)
                                     && a.subcategories == Subcategories(t, a.category) && a.subcategories != []
    ensures a.ListSubSubcategories? ==> !AnyKeyword(line) && !HasValue(t, Category, Strip(line))
                                        && HasValue(t, Subcategory, Strip(line)) && a.subcategory == Strip(line)
                                        && a.parent == ParentCategory(t, a.subcategory)
                                        && a.subsubcategories == SubSubcategories(t, a.parent, a.subcategory)
                                        && a.subsubcategories != []
    ensures !AnyKeyword(line) && HasValue(t, Category, Strip(line)) ==>
              (a.ListSubcategories? <==> Subcategories(t, Strip(line)) != [])
              && (a.ListItems? <==> Subcategories(t, Strip(line)) == [])
    ensures !AnyKeyword(line) && !HasValue(t, Category, Strip(line)) && HasValue(t, Subcategory, Strip(line)) ==>
              (a.ListSubSubcategories? <==> SubSubcategories(t, ParentCategory(t, Strip(line)), Strip(line)) != [])
              && (a.ListItems? <==> SubSubcategories(t, ParentCategory(t, Strip(line)), Strip(line)) == [])
    ensures (!AnyKeyword(line) && !HasValue(t, Category, Strip(line)) && !HasValue(t, Subcategory, Strip(line))
             && HasValue(t, SubSubcategory, Strip(line))) ==> a.ListItems?
    ensures a.ListItems? && HasValue(t, Category, Strip(line)) ==> a.items == Items(t, Some(Strip(line)), None, None)
    ensures a.ListItems? && !HasValue(t, Category, Strip(line)) && HasValue(t, Subcategory, Strip(line)) ==>
              a.items == Items(t, None, Some(Strip(line)), None)
    ensures a.ListItems? && !HasValue(t, Category, Strip(line)) && !HasValue(t, Subcategory, Strip(line)) ==>
              a.items == Items(t, None, None, Some(Strip(line)))
  {
    var cmd := Strip(line);
    if Lower(cmd) == "bye" then Quit
    else if Lower(cmd) == "insanity" then ListCategories(MainCategories(t))
    else if Lower(cmd) == "fix the insanity" then AskForSelection
    else if HasValue(t, Category, cmd) then
      var subcats := Subcategories(t, cmd);
      if subcats != [] then ListSubcategories(cmd, subcats)
      else ListItems(Items(t, Some(cmd), None, None))
    else if HasValue(t, Subcategory, cmd) then
      var cat := ParentCategory(t, cmd);
      var subsubcats := SubSubcategories(t, cat, cmd);
      if subsubcats != [] then ListSubSubcategories(cmd, cat, subsubcats)
      else ListItems(Items(t, None, Some(cmd), None))
    else if HasValue(t, SubSubcategory, cmd) then ListItems(Items(t, None, None, Some(cmd)))
    else Unknown
  }

  /**
   * Whether `row` belongs in the item listing for the typed name `cmd`: the
   * column tested is the first of category, subcategory and sub-subcategory
   * that holds `cmd` somewhere; an empty name is no filter at all.
   */
  predicate Listed(t: seq<Row>, cmd: string, row: Row) {
    cmd == "" ||
    if HasValue(t, Category, cmd) then row.category == cmd
    else if HasValue(t, Subcategory, cmd) then row.subcategory == Some(cmd)
    else row.subsubcategory == Some(cmd)
  }

  /**
   * The rows an item listing prints, in table order and with repeats: for a
   * category without subcategories, its rows; for a subcategory without
   * sub-subcategories, every row with that subcategory under any category
   * (not only under the parent category); for a sub-subcategory, every row
   * with it.
   */
  lemma ListedItems(t: seq<Row>, line: string)
    requires Classify(t, line).ListItems?
    ensures !AnyKeyword(line)
    ensures forall row :: row in Classify(t, line).items <==> row in t && Listed(t, Strip(line), row)
    ensures forall row :: multiset(Classify(t, line).items)[row] ==
                          if Listed(t, Strip(line), row) then multiset(t)[row] else 0
    ensures IsSubsequence(Classify(t, line).items, t)
  {
    var cmd := Strip(line);
    if HasValue(t, Category, cmd) {
      ItemsExactly(t, Some(cmd), None, None);
    } else if HasValue(t, Subcategory, cmd) {
      ItemsExactly(t, None, Some(cmd), None);
    } else {
      ItemsExactly(t, None, None, Some(cmd));
    }
  }
}
