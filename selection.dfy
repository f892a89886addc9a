/**
 * The selection resolver of the "fix the insanity" command (insanity.py,
 * lines 97-115): the typed list is cut at commas into tokens, and each token
 * contributes the rows of the category, else the subcategory, else the
 * sub-subcategory it names; the contributions are concatenated in token
 * order without removing repeats.
 */
module Selection {
  import opened Wrappers
  import opened Seqs
  import opened Text
  import opened Table
  import opened Query

  /** `[x.strip() for x in pieces if x.strip()]`. */
  function StrippedNonEmpty(pieces: seq<string>): (r: seq<string>)
    ensures |r| <= |pieces|
    ensures forall i :: 0 <= i < |r| ==> r[i] != "" && IsStripped(r[i])
    ensures (forall i :: 0 <= i < |pieces| ==> ',' !in pieces[i]) ==> forall i :: 0 <= i < |r| ==> ',' !in r[i]
  {
    if |pieces| == 0 then []
    else
      var x := Strip(pieces[0]);
      var rest := StrippedNonEmpty(pieces[1..]);
      assert ',' in x ==> ',' in pieces[0];
      if x != "" then [x] + rest else rest
  }

  /** The tokens of the typed list (`user_input.strip()`, then line 98). */
  function Tokens(input: string): (r: seq<string>)
    ensures forall i :: 0 <= i < |r| ==> r[i] != "" && IsStripped(r[i]) && ',' !in r[i]
  {
    StrippedNonEmpty(Split(Strip(input), ','))
  }

  /** What one token adds to the selection (lines 103-115). */
  function Contribution(t: seq<Row>, token: string): (r: seq<Row>)
    ensures |r| <= |t|
    ensures forall row :: row in r ==> row in t
  {
    var items := Items(t, Some(token), None, None);
    if items != [] then items
    else
      var subItems := Where(t, [(Subcategory, token)]);
      if subItems != [] then subItems
      else
        var subsubItems := Where(t, [(SubSubcategory, token)]);
        if subsubItems != [] then subsubItems else []
  }

  /** The selection for a list of tokens: their contributions, concatenated in token order. */
  function Selected(t: seq<Row>, tokens: seq<string>): (r: seq<Row>)
    ensures forall row :: row in r ==> row in t
  {
    if |tokens| == 0 then [] else Contribution(t, tokens[0]) + Selected(t, tokens[1..])
  }

  /** The loop of lines 99-115, accumulating the selection token by token. */
  method ResolveSelection(t: seq<Row>, input: string) returns (selected: seq<Row>)
    ensures selected == Selected(t, Tokens(input))
  {
    var selections := Tokens(input);
    selected := [];
    for k := 0 to |selections|
      invariant selected == Selected(t, selections[..k])
    {
      SelectedPrefix(t, selections, k);
      selected := selected + Contribution(t, selections[k]);
    }
    assert selections[..|selections|] == selections;
  }

  lemma {:induction false} SelectedAppend(t: seq<Row>, tokens: seq<string>, last: string)
    ensures Selected(t, tokens + [last]) == Selected(t, tokens) + Contribution(t, last)
  {
    if tokens == [] {
      assert tokens + [last] == [last];
      assert ([last])[1..] == [];
    } else {
      assert (tokens + [last])[1..] == tokens[1..] + [last];
      SelectedAppend(t, tokens[1..], last);
    }
  }

  lemma SelectedPrefix(t: seq<Row>, tokens: seq<string>, k: nat)
    requires k < |tokens|
    ensures Selected(t, tokens[..k + 1]) == Selected(t, tokens[..k]) + Contribution(t, tokens[k])
  {
    assert tokens[..k + 1] == tokens[..k] + [tokens[k]];
    SelectedAppend(t, tokens[..k], tokens[k]);
  }

  lemma SingleCriterion(row: Row, col: Column, v: string)
    ensures Satisfies(row, [(col, v)]) <==> Has(row, col, v)
  {
    var crit := [(col, v)];
    assert Satisfies(row, crit) ==> Has(row, crit[0].0, crit[0].1);
  }

  lemma WhereEmpty(t: seq<Row>, col: Column, v: string)
    ensures Where(t, [(col, v)]) != [] <==> HasValue(t, col, v)
  {
    forall row ensures row in Where(t, [(col, v)]) <==> row in t && Has(row, col, v) {
      SingleCriterion(row, col, v);
    }
    if HasValue(t, col, v) {
      var row :| row in t && Has(row, col, v);
      assert row in Where(t, [(col, v)]);
    }
  }

  /**
   * Resolution precedence. A token naming a category contributes exactly
   * that category's rows; otherwise one naming a subcategory contributes
   * every row with that subcategory, under any category; otherwise one naming
   * a sub-subcategory contributes every row with it; otherwise nothing.
   */
  lemma {:induction false} ContributionPrecedence(t: seq<Row>, token: string)
    requires token != ""
    ensures HasValue(t, Category, token) ==> Contribution(t, token) == Where(t, [(Category, token)])
    ensures !HasValue(t, Category, token) && HasValue(t, Subcategory, token) ==>
              Contribution(t, token) == Where(t, [(Subcategory, token)])
    ensures !HasValue(t, Category, token) && !HasValue(t, Subcategory, token) && HasValue(t, SubSubcategory, token) ==>
              Contribution(t, token) == Where(t, [(SubSubcategory, token)])
    ensures !HasValue(t, Category, token) && !HasValue(t, Subcategory, token) && !HasValue(t, SubSubcategory, token) ==>
              Contribution(t, token) == []
  {
    assert Items(t, Some(token), None, None) == Where(t, [(Category, token)]);
    WhereEmpty(t, Category, token);
    WhereEmpty(t, Subcategory, token);
    WhereEmpty(t, SubSubcategory, token);
  }

  /** A token's contribution is empty exactly when no row carries it in any of the three columns. */
  lemma ContributionEmpty(t: seq<Row>, token: string)
    requires token != ""
    ensures Contribution(t, token) == [] <==>
      !HasValue(t, Category, token) && !HasValue(t, Subcategory, token) && !HasValue(t, SubSubcategory, token)
  {
    ContributionPrecedence(t, token);
    WhereEmpty(t, Category, token);
    WhereEmpty(t, Subcategory, token);
    WhereEmpty(t, SubSubcategory, token);
  }

  /** Every contributed row is a row of the table, kept in table order. */
  lemma ContributionFromTable(t: seq<Row>, token: string)
    requires token != ""
    ensures forall row :: row in Contribution(t, token) ==> row in t
    ensures IsSubsequence(Contribution(t, token), t)
  {
    ContributionPrecedence(t, token);
    WhereOrder(t, [(Category, token)]);
    WhereOrder(t, [(Subcategory, token)]);
    WhereOrder(t, [(SubSubcategory, token)]);
  }

  function TotalContribution(t: seq<Row>, tokens: seq<string>): nat {
    if |tokens| == 0 then 0 else |Contribution(t, tokens[0])| + TotalContribution(t, tokens[1..])
  }

  /** Nothing is deduplicated: the selection is as long as all contributions together. */
  lemma {:induction false} SelectedLength(t: seq<Row>, tokens: seq<string>)
    ensures |Selected(t, tokens)| == TotalContribution(t, tokens)
  {
    if tokens != [] {
      SelectedLength(t, tokens[1..]);
    }
  }

  /**
   * Whitespace around the typed names does not matter: two names separated
   * by a comma give the same two tokens however they are padded, so
   * `" Fruit ,  Veg "` and `"Fruit,Veg"` both give `["Fruit", "Veg"]`.
   */
  lemma TokensOfTwo(input: string, a1: string, x: string, b1: string, a2: string, y: string, b2: string)
    requires input == a1 + x + b1 + [','] + a2 + y + b2
    requires AllSpace(a1) && AllSpace(b1) && AllSpace(a2) && AllSpace(b2)
    requires x != "" && y != "" && IsStripped(x) && IsStripped(y) && ',' !in x && ',' !in y
    ensures Tokens(input) == [x, y]
  {
    var pieces := [a1 + x + b1, a2 + y + b2];
    assert Join(pieces, ',') == input by {
      assert pieces[1..] == [a2 + y + b2];
    }
    assert ',' !in pieces[0] && ',' !in pieces[1] by {
      assert !IsSpace(',');
    }
    assert Strip(pieces[0]) == x by {
      StripPadded(a1, x, b1);
      StripStripped(x);
    }
    assert Strip(pieces[1]) == y by {
      StripPadded(a2, y, b2);
      StripStripped(y);
    }
    TokensOfNames(pieces);
    assert seq(|pieces|, k requires 0 <= k < |pieces| => Strip(pieces[k])) == [x, y];
  }

  /** An example: `" Fruit ,  Veg "` and `"Fruit,Veg"` give the same tokens. */
  lemma TokensIgnoreSpacing(padded: string, bare: string)
    requires padded == " Fruit ,  Veg " && bare == "Fruit,Veg"
    ensures Tokens(padded) == ["Fruit", "Veg"] == Tokens(bare)
  {
    assert padded == " " + "Fruit" + " " + [','] + "  " + "Veg" + " ";
    assert bare == "" + "Fruit" + "" + [','] + "" + "Veg" + "";
    TokensOfTwo(padded, " ", "Fruit", " ", "  ", "Veg", " ");
    TokensOfTwo(bare, "", "Fruit", "", "", "Veg", "");
  }

  /** One piece gives its stripped form, or nothing when that is empty. */
  lemma StrippedNonEmptySingle(p: string)
    ensures StrippedNonEmpty([p]) == if Strip(p) == "" then [] else [Strip(p)]
  {
    assert [p][1..] == [];
  }

  /** The comprehension works piece by piece: it distributes over concatenation, keeping order and repeats. */
  lemma {:induction false} StrippedNonEmptyAppend(a: seq<string>, b: seq<string>)
    ensures StrippedNonEmpty(a + b) == StrippedNonEmpty(a) + StrippedNonEmpty(b)
  {
    if a == [] {
      assert a + b == b;
    } else {
      assert (a + b)[0] == a[0] && (a + b)[1..] == a[1..] + b;
      StrippedNonEmptyAppend(a[1..], b);
    }
  }

  /** When no piece is blank, the tokens are the stripped pieces, one for one. */
  lemma {:induction false} StrippedNonEmptyAll(pieces: seq<string>)
    requires forall k :: 0 <= k < |pieces| ==> Strip(pieces[k]) != ""
    ensures StrippedNonEmpty(pieces) == seq(|pieces|, k requires 0 <= k < |pieces| => Strip(pieces[k]))
  {
    if pieces != [] {
      StrippedNonEmptyAll(pieces[1..]);
    }
  }

  /** Only the stripped form of each piece matters. */
  lemma {:induction false} StrippedNonEmptySame(ps: seq<string>, qs: seq<string>)
    requires |ps| == |qs| && forall k :: 0 <= k < |ps| ==> Strip(ps[k]) == Strip(qs[k])
    ensures StrippedNonEmpty(ps) == StrippedNonEmpty(qs)
  {
    if ps != [] {
      StrippedNonEmptySame(ps[1..], qs[1..]);
    }
  }

  /** The pieces `qs` with whitespace `pre` added to the first and `suf` to the last. */
  function Pad(qs: seq<string>, pre: string, suf: string): (r: seq<string>)
    requires |qs| >= 1
    ensures |r| == |qs|
  {
    var q1 := [pre + qs[0]] + qs[1..];
    q1[..|q1| - 1] + [q1[|q1| - 1] + suf]
  }

  lemma JoinPad(qs: seq<string>, pre: string, suf: string)
    requires |qs| >= 1
    ensures Join(Pad(qs, pre, suf), ',') == pre + Join(qs, ',') + suf
  {
    JoinFront(pre, qs, ',');
    JoinBack([pre + qs[0]] + qs[1..], suf, ',');
  }

  lemma PadStrip(qs: seq<string>, pre: string, suf: string)
    requires |qs| >= 1 && AllSpace(pre) && AllSpace(suf)
    ensures forall k :: 0 <= k < |qs| ==> Strip(Pad(qs, pre, suf)[k]) == Strip(qs[k])
    ensures forall k :: 0 <= k < |qs| && ',' !in qs[k] ==> ',' !in Pad(qs, pre, suf)[k]
  {
    assert !IsSpace(',');
    var n := |qs|;
    forall k | 0 <= k < n
      ensures Pad(qs, pre, suf)[k] == (if k == 0 then pre else "") + qs[k] + (if k == n - 1 then suf else "")
    {
    }
    forall k | 0 <= k < n ensures Strip(Pad(qs, pre, suf)[k]) == Strip(qs[k]) {
      StripPadded(if k == 0 then pre else "", qs[k], if k == n - 1 then suf else "");
    }
  }

  /** Whitespace around a line falls into its first and last comma-separated pieces. */
  lemma SplitPadded(m: string, pre: string, suf: string)
    requires AllSpace(pre) && AllSpace(suf)
    ensures Split(pre + m + suf, ',') == Pad(Split(m, ','), pre, suf)
  {
    var qs := Split(m, ',');
    JoinPad(qs, pre, suf);
    PadStrip(qs, pre, suf);
    SplitJoin(Pad(qs, pre, suf), ',');
  }

  /** The tokens of the stripped line equal those of the pieces of the padded line. */
  lemma TokensPadded(m: string, pre: string, suf: string, pieces: seq<string>)
    requires AllSpace(pre) && AllSpace(suf) && pre + m + suf == Join(pieces, ',')
    requires |pieces| >= 1 && forall k :: 0 <= k < |pieces| ==> ',' !in pieces[k]
    ensures StrippedNonEmpty(Split(m, ',')) == StrippedNonEmpty(pieces)
  {
    SplitPadded(m, pre, suf);
    SplitJoin(pieces, ',');
    PadStrip(Split(m, ','), pre, suf);
    StrippedNonEmptySame(pieces, Split(m, ','));
  }

  /**
   * The tokens of a comma-separated list are the stripped non-blank pieces
   * between its commas, in order and with repeats: stripping the whole line
   * first changes nothing.
   */
  lemma TokensOfPieces(pieces: seq<string>)
    requires |pieces| >= 1 && forall k :: 0 <= k < |pieces| ==> ',' !in pieces[k]
    ensures Tokens(Join(pieces, ',')) == StrippedNonEmpty(pieces)
  {
    var input := Join(pieces, ',');
    var pre, suf := StripParts(input);
    TokensPadded(Strip(input), pre, suf, pieces);
  }

  /** A list of names, each padded with whitespace, gives exactly those names in order, repeats included. */
  lemma TokensOfNames(pieces: seq<string>)
    requires |pieces| >= 1 && forall k :: 0 <= k < |pieces| ==> ',' !in pieces[k] && Strip(pieces[k]) != ""
    ensures Tokens(Join(pieces, ',')) == seq(|pieces|, k requires 0 <= k < |pieces| => Strip(pieces[k]))
  {
    TokensOfPieces(pieces);
    StrippedNonEmptyAll(pieces);
  }
}
