/**
 * The query helpers (insanity.py, lines 39-56): boolean-mask filters on the
 * three hierarchy columns, the sorted distinct values of a column, and
 * `get_items` with its three optional filters.
 */
module Query {
  import opened Wrappers
  import opened Seqs
  import opened Sorting
  import opened Table

  /** The three hierarchy columns a filter or a lookup can name. */
  datatype Column = Category | Subcategory | SubSubcategory

  /** The cell of `row` in column `col`; the category is never missing. */
  function Cell(row: Row, col: Column): Option<string> {
    match col
    case Category => Some(row.category)
    case Subcategory => row.subcategory
    case SubSubcategory => row.subsubcategory
  }

  /** `df[col] == v` on one row: a missing cell equals no value. */
  predicate Has(row: Row, col: Column, v: string) {
    Cell(row, col) == Some(v)
  }

  /** Some row of `t` has `v` in column `col` (`v in df[col].values`). */
  predicate HasValue(t: seq<Row>, col: Column, v: string) {
    exists row :: row in t && Has(row, col, v)
  }

  /** A conjunction of equality tests, as boolean masks combined with `&`. */
  type Criteria = seq<(Column, string)>

  predicate Satisfies(row: Row, crit: Criteria) {
    forall i :: 0 <= i < |crit| ==> Has(row, crit[i].0, crit[i].1)
  }

  /** `df[mask]`: the rows satisfying every criterion, in table order. */
  function Where(t: seq<Row>, crit: Criteria): (r: seq<Row>)
    ensures |r| <= |t|
    ensures forall row :: row in r <==> row in t && Satisfies(row, crit)
  {
    if |t| == 0 then []
    else
      assert t == [t[0]] + t[1..];
      if Satisfies(t[0], crit) then [t[0]] + Where(t[1..], crit) else Where(t[1..], crit)
  }

  lemma WhereCons(x: Row, t: seq<Row>, crit: Criteria)
    ensures Where([x] + t, crit) == (if Satisfies(x, crit) then [x] else []) + Where(t, crit)
  {
    assert ([x] + t)[0] == x && ([x] + t)[1..] == t;
  }

  /** A filter keeps the table's order. */
  lemma {:induction false} WhereOrder(t: seq<Row>, crit: Criteria)
    ensures IsSubsequence(Where(t, crit), t)
  {
    if t != [] {
      WhereOrder(t[1..], crit);
      var r := Where(t, crit);
      if Satisfies(t[0], crit) {
        assert r[0] == t[0] && r[1..] == Where(t[1..], crit);
      }
    }
  }

  /** A filter keeps every copy of a matching row and no copy of any other. */
  lemma {:induction false} WhereCount(t: seq<Row>, crit: Criteria, row: Row)
    ensures multiset(Where(t, crit))[row] == if Satisfies(row, crit) then multiset(t)[row] else 0
  {
    if t != [] {
      WhereCount(t[1..], crit, row);
      assert t == [t[0]] + t[1..];
    }
  }

  /** An empty mask selects everything. */
  lemma {:induction false} WhereNothing(t: seq<Row>)
    ensures Where(t, []) == t
  {
    if t != [] {
      WhereNothing(t[1..]);
      assert t == [t[0]] + t[1..];
    }
  }

  lemma SatisfiesAppend(row: Row, c1: Criteria, c2: Criteria)
    ensures Satisfies(row, c1 + c2) <==> Satisfies(row, c1) && Satisfies(row, c2)
  {
    if Satisfies(row, c1) && Satisfies(row, c2) {
      forall i | 0 <= i < |c1 + c2| ensures Has(row, (c1 + c2)[i].0, (c1 + c2)[i].1) {
        if i >= |c1| {
          assert (c1 + c2)[i] == c2[i - |c1|];
        }
      }
    }
    if Satisfies(row, c1 + c2) {
      forall i | 0 <= i < |c2| ensures Has(row, c2[i].0, c2[i].1) {
        assert (c1 + c2)[|c1| + i] == c2[i];
      }
      forall i | 0 <= i < |c1| ensures Has(row, c1[i].0, c1[i].1) {
        assert (c1 + c2)[i] == c1[i];
      }
    }
  }

  /** Filtering twice is filtering once by both masks. */
  lemma {:induction false} WhereTwice(t: seq<Row>, c1: Criteria, c2: Criteria)
    ensures Where(Where(t, c1), c2) == Where(t, c1 + c2)
  {
    if t != [] {
      WhereTwice(t[1..], c1, c2);
      SatisfiesAppend(t[0], c1, c2);
      if Satisfies(t[0], c1) {
        WhereCons(t[0], Where(t[1..], c1), c2);
      }
    }
  }

  /** The present cells of column `col`, in table order (`df[col].dropna()`). */
  function Present(t: seq<Row>, col: Column): (r: seq<string>)
    ensures forall v :: v in r <==> HasValue(t, col, v)
  {
    if |t| == 0 then []
    else
      assert t == [t[0]] + t[1..];
      var rest := Present(t[1..], col);
      forall w ensures HasValue(t, col, w) <==> Cell(t[0], col) == Some(w) || HasValue(t[1..], col, w) {
        if HasValue(t, col, w) {
          var row :| row in t && Has(row, col, w);
          assert row == t[0] || row in t[1..];
        }
        if Cell(t[0], col) == Some(w) {
          assert t[0] in t && Has(t[0], col, w);
        }
      }
      match Cell(t[0], col)
      case Some(v) => [v] + rest
      case None => rest
  }

  /** `sorted(df[col].dropna().unique())`. */
  function Distinct(t: seq<Row>, col: Column): (r: seq<string>)
    ensures StrictlyAscending(r)
    ensures forall v :: v in r <==> HasValue(t, col, v)
  {
    SortedDistinct(Present(t, col))
  }

  /** `get_main_categories`: the categories of the table, ascending and without repeats. */
  function MainCategories(t: seq<Row>): (r: seq<string>)
    ensures StrictlyAscending(r)
    ensures forall c :: c in r <==> exists row :: row in t && row.category == c
  {
    Distinct(t, Category)
  }

  /** `get_subcategories`: the subcategories present under category `c`, ascending and without repeats. */
  function Subcategories(t: seq<Row>, c: string): (r: seq<string>)
    ensures StrictlyAscending(r)
    ensures forall s :: s in r <==> exists row :: row in t && row.category == c && row.subcategory == Some(s)
  {
    var crit := [(Category, c)];
    var scope := Where(t, crit);
    assert forall row :: Satisfies(row, crit) <==> row.category == c by {
      forall row ensures Satisfies(row, crit) <==> row.category == c {
        assert Satisfies(row, crit) ==> Has(row, crit[0].0, crit[0].1);
      }
    }
    Distinct(scope, Subcategory)
  }

  /** `get_subsubcategories`: the sub-subcategories under category `c` and subcategory `s`, ascending and without repeats. */
  function SubSubcategories(t: seq<Row>, c: string, s: string): (r: seq<string>)
    ensures StrictlyAscending(r)
    ensures forall x :: x in r <==> exists row :: row in t && row.category == c && row.subcategory == Some(s) && row.subsubcategory == Some(x)
  {
    var crit := [(Category, c), (Subcategory, s)];
    var scope := Where(t, crit);
    assert forall row :: Satisfies(row, crit) <==> row.category == c && row.subcategory == Some(s) by {
      forall row ensures Satisfies(row, crit) <==> row.category == c && row.subcategory == Some(s) {
        assert Satisfies(row, crit) ==> Has(row, crit[0].0, crit[0].1) && Has(row, crit[1].0, crit[1].1);
      }
    }
    Distinct(scope, SubSubcategory)
  }

  /** A keyword argument of `get_items` filters only when it is truthy: given and not the empty string. */
  predicate Active(f: Option<string>) {
    f.Some? && f.value != ""
  }

  /** The filter `get_items` applies for one keyword argument. */
  function Criterion(col: Column, f: Option<string>): Criteria {
    if Active(f) then [(col, f.value)] else []
  }

  /** The criteria of a `get_items` call: one per truthy argument. */
  function ItemCriteria(cat: Option<string>, sub: Option<string>, subsub: Option<string>): Criteria {
    Criterion(Category, cat) + Criterion(Subcategory, sub) + Criterion(SubSubcategory, subsub)
  }

  /** Row `row` passes every truthy filter of a `get_items` call. */
  predicate Matches(row: Row, cat: Option<string>, sub: Option<string>, subsub: Option<string>) {
    && (Active(cat) ==> row.category == cat.value)
    && (Active(sub) ==> row.subcategory == sub)
    && (Active(subsub) ==> row.subsubcategory == subsub)
  }

  /** `get_items` as written: up to three successive filters, each applied only when its argument is truthy. */
  function Items(t: seq<Row>, cat: Option<string>, sub: Option<string>, subsub: Option<string>): (r: seq<Row>)
    ensures |r| <= |t|
    ensures forall row :: row in r <==> row in t && Matches(row, cat, sub, subsub)
  {
    var byCategory := if Active(cat) then Where(t, [(Category, cat.value)]) else t;
    var bySub := if Active(sub) then Where(byCategory, [(Subcategory, sub.value)]) else byCategory;
    assert forall row, col, v :: Satisfies(row, [(col, v)]) <==> Has(row, col, v) by {
      forall row, col, v ensures Satisfies(row, [(col, v)]) <==> Has(row, col, v) {
        var crit := [(col, v)];
        assert Satisfies(row, crit) ==> Has(row, crit[0].0, crit[0].1);
      }
    }
    if Active(subsub) then Where(bySub, [(SubSubcategory, subsub.value)]) else bySub
  }

  lemma MatchesCriteria(row: Row, cat: Option<string>, sub: Option<string>, subsub: Option<string>)
    ensures Satisfies(row, ItemCriteria(cat, sub, subsub)) <==> Matches(row, cat, sub, subsub)
  {
    var c1, c2, c3 := Criterion(Category, cat), Criterion(Subcategory, sub), Criterion(SubSubcategory, subsub);
    SatisfiesAppend(row, c1 + c2, c3);
    SatisfiesAppend(row, c1, c2);
    assert Satisfies(row, c1) <==> (Active(cat) ==> row.category == cat.value) by {
      if Active(cat) { assert Satisfies(row, c1) ==> Has(row, c1[0].0, c1[0].1); }
    }
    assert Satisfies(row, c2) <==> (Active(sub) ==> row.subcategory == sub) by {
      if Active(sub) { assert Satisfies(row, c2) ==> Has(row, c2[0].0, c2[0].1); }
    }
    assert Satisfies(row, c3) <==> (Active(subsub) ==> row.subsubcategory == subsub) by {
      if Active(subsub) { assert Satisfies(row, c3) ==> Has(row, c3[0].0, c3[0].1); }
    }
  }

  /** The successive filters of `get_items` are one filter by all truthy arguments. */
  lemma ItemsWhere(t: seq<Row>, cat: Option<string>, sub: Option<string>, subsub: Option<string>)
    ensures Items(t, cat, sub, subsub) == Where(t, ItemCriteria(cat, sub, subsub))
  {
    var c1, c2, c3 := Criterion(Category, cat), Criterion(Subcategory, sub), Criterion(SubSubcategory, subsub);
    WhereNothing(t);
    WhereNothing(Where(t, c1));
    WhereNothing(Where(t, c1 + c2));
    WhereTwice(t, c1, c2);
    WhereTwice(t, c1 + c2, c3);
  }

  /**
   * `get_items` returns exactly the rows that pass every truthy filter: a
   * member of the result is such a row, each such row occurs as often as in
   * the table, and the table's order is kept.
   */
  lemma ItemsExactly(t: seq<Row>, cat: Option<string>, sub: Option<string>, subsub: Option<string>)
    ensures forall row :: row in Items(t, cat, sub, subsub) <==> row in t && Matches(row, cat, sub, subsub)
    ensures forall row :: multiset(Items(t, cat, sub, subsub))[row] == if Matches(row, cat, sub, subsub) then multiset(t)[row] else 0
    ensures IsSubsequence(Items(t, cat, sub, subsub), t)
  {
    ItemsWhere(t, cat, sub, subsub);
    var crit := ItemCriteria(cat, sub, subsub);
    forall row ensures multiset(Items(t, cat, sub, subsub))[row] == if Matches(row, cat, sub, subsub) then multiset(t)[row] else 0 {
      WhereCount(t, crit, row);
      MatchesCriteria(row, cat, sub, subsub);
    }
    forall row ensures row in Items(t, cat, sub, subsub) <==> row in t && Matches(row, cat, sub, subsub) {
      MatchesCriteria(row, cat, sub, subsub);
    }
    WhereOrder(t, crit);
  }

  /** With no truthy argument `get_items` returns the whole table. */
  lemma ItemsUnfiltered(t: seq<Row>, cat: Option<string>, sub: Option<string>, subsub: Option<string>)
    requires !Active(cat) && !Active(sub) && !Active(subsub)
    ensures Items(t, cat, sub, subsub) == t
  {
  }
}
