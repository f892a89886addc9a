# insanity.py in Dafny

This project models `insanity.py`, a command-line browser over an Excel
workbook of categorised items. It covers:

- the **loader**, which turns every sheet into rows whose category is the sheet name and joins the sheets in workbook order;
- **column detection and renaming**, which maps the headers for item, client, subcategory and sub-subcategory onto canonical labels;
- the **query helpers**: sorted distinct categories, subcategories and sub-subcategories, and `get_items` with its three optional filters;
- the **"fix the insanity" selection**, which cuts a typed comma list into tokens, resolves each token as a category, else a subcategory, else a sub-subcategory, and concatenates what each token contributes;
- the **export layout**, which writes a sheet "Items" with a fixed header row, one five-cell row per record and the record count;
- the **command dispatch** of the interactive loop, which classifies one typed line as a keyword, a category, a subcategory, a sub-subcategory or an unknown command.

The modules follow the program's parts:

| module | file | models |
|---|---|---|
| `Wrappers` | wrappers.dfy | `Option` |
| `Seqs` | seqs.dfy | subsequences, first index |
| `Text` | text.dfy | ASCII `str.lower`, `str.strip`, `str.split`, substring test, string order |
| `Sorting` | sorting.dfy | `sorted(set(...))` as an ascending list without repeats |
| `Table` | table.dfy | rows, sheets, the loader (lines 19-25) |
| `Query` | query.dfy | masks, `dropna().unique()`, the four helpers (lines 39-56) |
| `Schema` | schema.dfy | column detection and rename (lines 28-36) |
| `Selection` | selection.dfy | token splitting and resolution (lines 97-115) |
| `Export` | export.dfy | the export sheet (lines 58-66) |
| `Shell` | shell.dfy | command classification (lines 78-159) |

A row after renaming is a fixed record with five fields. `category` is a
string. `subcategory`, `subsubcategory`, `item` and `client` are
`Option<string>`, where `None` stands for an empty (NaN) cell. A pandas
equality mask never matches a NaN cell, and `dropna` drops those cells.

The loop-shaped parts of the source are methods with loop invariants, each
proved equal to a specification function:

- the loader loop is `Table.Load`;
- the selection loop is `Selection.ResolveSelection`;
- the export loop appends to a `Worksheet` object in `Export.ExportItems`.

The expression-shaped parts are functions with lemmas beside them.

A table lacking one of the canonical columns makes the code raise
`KeyError` at the first lookup of that column, for example
`df["Subcategory"]`. The model's five-field record cannot lack a column,
so that error path is not represented (see "Left out").

## Model

| member | source | states |
|---|---|---|
| Table.Load | insanity.py:19-25 | the loop's table is the tagged sheets concatenated in workbook order |
| Table.FlattenLength | insanity.py:19-25 | the table has as many rows as all sheets together |
| Table.FlattenAt | insanity.py:20-25 | row j of sheet i sits at offset (rows of sheets before i) + j, with category set to sheet i's name and every other cell kept |
| Table.FlattenAppend | insanity.py:23-25 | appending a sheet appends its tagged rows after those already loaded |
| Table.FlattenCategories | insanity.py:22 | the categories present are exactly the names of the non-empty sheets |
| Text.Strip | insanity.py:78 | the result has no leading or trailing ASCII whitespace and the input is that result with only whitespace added before and after it |
| Text.StripParts | insanity.py:78 | names the whitespace `strip()` removes: the input is that prefix, the stripped result, then that suffix |
| Text.Split | insanity.py:98 | at least one piece; no piece holds the separator; joining the pieces with the separator restores the input |
| Text.SplitJoin | insanity.py:98 | splitting a separator-joined list of separator-free pieces gives those pieces back |
| Text.JoinFront | insanity.py:97-98 | text added before the first piece comes first in the joined string |
| Text.JoinBack | insanity.py:97-98 | text added after the last piece comes last in the joined string |
| Text.Lower | insanity.py:28-32 | `str.lower` on ASCII: same length, no upper-case letter left, each upper-case letter moved 32 code points down, every other character kept |
| Text.ContainsSpec | insanity.py:31-32 | `pat in s` holds exactly when `pat` occurs in `s` at some offset |
| Text.LessSpec | insanity.py:40-46 | the string order `sorted` uses: a proper prefix comes first, otherwise the first differing character decides |
| Text.LessIrreflexive | insanity.py:40-46 | no string sorts before itself |
| Text.LessTransitive | insanity.py:40-46 | the string order is transitive |
| Text.LessTotal | insanity.py:40-46 | any two different strings are ordered one way or the other |
| Seqs.FirstIndex | insanity.py:29-32 | the index of the first element passing the test, or None exactly when none passes |
| Schema.FirstHeader | insanity.py:29-32 | `next(generator, None)`: the first header in column order passing the test, or None exactly when none does |
| Schema.ItemColumn | insanity.py:29 | the first header whose lower-case form is "title" or "item"; None exactly when no header is |
| Schema.ClientColumn | insanity.py:30 | the first header whose lower-case form is "authors" or "client"; None exactly when no header is |
| Schema.SubcategoryColumn | insanity.py:31 | the first header containing "sub" whose first `_` token does not; "Subcategory" when there is none |
| Schema.SubSubcategoryColumn | insanity.py:32 | the first header containing "sub-sub"; "Sub-subcategory" when there is none |
| Schema.SubPrefixNotSubcategory | insanity.py:31 | a header whose lower-case form starts with "sub" (so "Subcategory" itself) never passes the subcategory rule |
| Schema.HeaderTestsDisjoint | insanity.py:29-32 | no header passes two of the item, client and sub tests |
| Schema.DetectedDistinct | insanity.py:29-32 | the detected item and client headers differ from each other and from both subcategory headers, fallbacks included |
| Schema.BuildRenameMap | insanity.py:35-36 | the dictionary maps each detected header to its label; the sub-subcategory entry wins when one header was detected for both subcategory roles; it has no other keys |
| Schema.RenameMap | insanity.py:28-36 | the same, for the headers detected in a header list |
| Schema.Normalize | insanity.py:28-36 | after renaming, each header in the map carries its canonical label; same length; every other header is unchanged |
| Sorting.SortedDistinct | insanity.py:40 | `sorted(unique(...))`: strictly ascending, the same members, no longer than the input |
| Sorting.AscendingUnique | insanity.py:40 | two strictly ascending lists with the same members are equal, so a sorted distinct list is determined by its members |
| Query.Where | insanity.py:43-56 | a boolean mask keeps exactly the rows passing every criterion |
| Query.WhereOrder | insanity.py:49-56 | a mask keeps table order (the result is a subsequence) |
| Query.WhereCount | insanity.py:49-56 | a mask keeps every copy of a matching row and drops every copy of any other |
| Query.WhereTwice | insanity.py:49-55 | two successive masks filter the same as one mask with both conditions |
| Query.Present | insanity.py:40 | `dropna()`: a value is present exactly when some row has it in that column |
| Query.Distinct | insanity.py:40-46 | `sorted(col.dropna().unique())`: strictly ascending, holding exactly the present values |
| Query.MainCategories | insanity.py:39-40 | strictly ascending, holding exactly the categories of the table's rows |
| Query.Subcategories | insanity.py:42-43 | strictly ascending, holding exactly the present subcategories of rows in the given category |
| Query.SubSubcategories | insanity.py:45-46 | strictly ascending, holding exactly the present sub-subcategories of rows with the given category and subcategory |
| Query.MatchesCriteria | insanity.py:50-55 | a row passes the criteria of a `get_items` call exactly when it meets every truthy filter |
| Query.Items | insanity.py:48-56 | `get_items` as written, three guarded filters: no longer than the table, and a row is in the result exactly when it is a table row meeting every truthy filter |
| Query.ItemsWhere | insanity.py:48-56 | the three guarded filters equal one mask of all truthy filters |
| Query.ItemsExactly | insanity.py:48-56 | `get_items` holds exactly the rows meeting every truthy filter, each as often as in the table, in table order |
| Query.ItemsUnfiltered | insanity.py:48-56 | with no truthy argument (None or "") the whole table is returned |
| Selection.StrippedNonEmpty | insanity.py:98 | kept tokens are non-empty and stripped; never more tokens than pieces; no comma appears when no piece has one |
| Selection.Tokens | insanity.py:97-98 | every token of the typed list is non-empty, stripped and comma-free |
| Selection.StrippedNonEmptySingle | insanity.py:98 | one piece gives its stripped form, or nothing when that is empty |
| Selection.StrippedNonEmptyAppend | insanity.py:98 | the comprehension distributes over concatenation of the piece list, keeping order and repeats |
| Selection.StrippedNonEmptyAll | insanity.py:98 | when no piece is blank, the tokens are the stripped pieces one for one |
| Selection.StrippedNonEmptySame | insanity.py:98 | only each piece's stripped form decides the tokens |
| Selection.JoinPad | insanity.py:97-98 | whitespace added to the first and last pieces ends up around the joined line |
| Selection.PadStrip | insanity.py:97-98 | that padding changes no piece's stripped form and adds no comma |
| Selection.SplitPadded | insanity.py:97-98 | whitespace around a line falls into its first and last comma-separated pieces |
| Selection.TokensOfPieces | insanity.py:97-98 | the tokens of a comma-joined list of comma-free pieces, of any length, are the stripped non-blank pieces in order with repeats, so the outer strip changes nothing |
| Selection.TokensOfNames | insanity.py:97-98 | a list of padded, non-blank names gives exactly the stripped names, in order, repeats included |
| Selection.TokensOfTwo | insanity.py:97-98 | two names around one comma give exactly those two tokens, whatever whitespace pads them |
| Selection.TokensIgnoreSpacing | insanity.py:97-98 | `" Fruit ,  Veg "` and `"Fruit,Veg"` both give `["Fruit", "Veg"]` |
| Selection.Contribution | insanity.py:103-115 | what one token adds: no longer than the table, and only table rows |
| Selection.Selected | insanity.py:99-115 | the concatenated contributions of a token list hold only table rows |
| Selection.ResolveSelection | insanity.py:99-115 | the accumulated selection is the contributions of the tokens concatenated in token order |
| Selection.SelectedAppend | insanity.py:108-115 | each loop step appends the next token's contribution to the selection so far |
| Selection.ContributionPrecedence | insanity.py:103-115 | a category token gives exactly its category's rows; else a subcategory token gives every row with it, under any category; else a sub-subcategory token gives every row with it; else nothing |
| Selection.ContributionEmpty | insanity.py:103-115 | a token contributes nothing exactly when no row carries it in any of the three columns |
| Selection.ContributionFromTable | insanity.py:103-115 | every contributed row is a table row, in table order |
| Selection.SelectedLength | insanity.py:99-115 | nothing is deduplicated: the selection's length is the sum of the contributions' lengths |
| Export.RowCells | insanity.py:64 | the five cells of one record, in header order, from which the record reads back unchanged |
| Export.Layout | insanity.py:62-64 | the header row first, then one row per record, in order, each reading back as that record |
| Export.Worksheet.constructor | insanity.py:61 | a new sheet has the given title and no rows |
| Export.Worksheet.Append | insanity.py:62-64 | `ws.append` adds one row at the end and changes nothing else |
| Export.ExportItems | insanity.py:58-66 | a fresh sheet titled "Items" holding the header row and then one five-cell row per record in order; the reported count is the number of records |
| Export.ExportRoundTrip | insanity.py:62-64 | reading the written rows back gives the exported records, field for field and in order |
| Export.ReloadExport | insanity.py:19-25 | loading the exported sheet again gives the same records, with category "Items" and all other fields kept |
| Export.ExportHeaderCanonical | insanity.py:28-36 | the exported header names come through column detection and renaming unchanged |
| Shell.ParentCategory | insanity.py:138 | the category of the first row, in table order, whose subcategory is the typed name |
| Shell.Classify | insanity.py:78-159 | the lower-cased stripped line is compared with "bye", "insanity" and "fix the insanity", in that order. Otherwise the stripped line, case kept, is listed as a category's subcategories when it is a category with some, as a subcategory's sub-subcategories under its first parent when it is a subcategory with some, and as the `get_items` result of that branch otherwise. Each listing happens exactly when its condition holds. It is unknown exactly when it is no keyword and no value of any of the three columns |
| Shell.ListedItems | insanity.py:129-156 | a listing prints, in table order and with repeats, the rows of a category without subcategories, every row of a subcategory without sub-subcategories under any category, or every row of a sub-subcategory; an empty name filters nothing |

## Left out

- Excel reading and writing are not modelled. The model starts from parsed sheets (name and rows) and ends at the rows handed to `ws.append`; `wb.save` is left out.
- The prompts are not modelled: reading the input path, `input()` and `print` of every listing and message, and the "Exported N items" report. Only the count is kept.
- The `while True` loop and its `KeyboardInterrupt` handling are not modelled. `Shell.Classify` decides what one line does, and the listings it would print are the payloads of its `Action`.
- The process exit on a missing file (`sys.exit(1)`) is not modelled.
- pandas data types are not modelled: non-string cells such as numbers and dates, NaN as a float, and positional indexes. Every cell is a string or missing.
- Column width is not modelled. A subcategory or sub-subcategory match in the selection concatenates full-width rows, while a category match uses the five-column projection. The model has the five canonical fields only, so both give the same rows.
- A table lacking a canonical column cannot be expressed, because the record always has all five fields. The source would raise `KeyError` at the first lookup of that column.
- The in-place update by `df.rename(..., inplace=True)` is modelled as `Schema.Normalize`, a function on the header list. Rows are taken to be already renamed.
- The rename runs once, over the union of all sheets' headers, and the model cannot show what follows when sheets spell a column differently. If sheet A says "Title" and sheet B says "Item", the rename creates a second "Item" column; the five-column projection then selects both, and each exported `row["Item"]` is a pair of values. If sheet B says "TITLE" while "Title" was detected, B's column is not renamed and B's rows have no item at all. The record has one consistent set of columns and can express neither case.
- Columns other than the five canonical ones are not part of the record, so the model does not show their values.
- Unicode letter-case and whitespace rules are not modelled. `Text.Lower` lower-cases ASCII letters only, and `Text.Strip` strips Python's ASCII whitespace (code points 9-13 and 28-32).
- Selection.ResolveSelection: the selection is accumulated as a sequence of records. The pandas frame's index, reset by `ignore_index`, is not modelled.
- The help text printed at start-up (lines 70-74) is cosmetic and left out.
- The "back" command it mentions has no implementation in the dispatch, so `Shell.Classify` classifies "back" like any other line.
- String order in `sorted` is modelled as code-point lexicographic order, which matches Python's `str` comparison.
