/**
 * Column auto-detection and renaming (insanity.py, lines 28-36). Each rule
 * picks the first header, in column order, that passes a test on its ASCII
 * lower-case form; the subcategory rules fall back to a literal name. The
 * detected headers are then renamed to the canonical labels.
 */
module Schema {
  import opened Wrappers
  import opened Seqs
  import opened Text

  /** `c.lower() in ["title", "item"]`. */
  predicate IsItemHeader(c: string) {
    Lower(c) == "title" || Lower(c) == "item"
  }

  /** `c.lower() in ["authors", "client"]`. */
  predicate IsClientHeader(c: string) {
    Lower(c) == "authors" || Lower(c) == "client"
  }

  /** `"sub" in c.lower() and "sub" not in c.lower().split("_")[0]`. */
  predicate IsSubcategoryHeader(c: string) {
    Contains(Lower(c), "sub") && !Contains(Split(Lower(c), '_')[0], "sub")
  }

  /** `"sub-sub" in c.lower()`. */
  predicate IsSubSubcategoryHeader(c: string) {
    Contains(Lower(c), "sub-sub")
  }

  /** `c` is the first header of `cols` that passes `p`. */
  ghost predicate IsFirstHeader(cols: seq<string>, p: string -> bool, c: string) {
    exists i :: 0 <= i < |cols| && cols[i] == c && p(c) && forall j :: 0 <= j < i ==> !p(cols[j])
  }

  /** `next((c for c in cols if p(c)), None)`. */
  function FirstHeader(cols: seq<string>, p: string -> bool): (r: Option<string>)
    ensures r.Some? ==> IsFirstHeader(cols, p, r.value)
    ensures r.None? <==> forall c :: c in cols ==> !p(c)
  {
    match FirstIndex(cols, p)
    case Some(i) => Some(cols[i])
    case None => None
  }

  /** `title_col`: the first header named "title" or "item" in any letter case, if there is one. */
  function ItemColumn(cols: seq<string>): (r: Option<string>)
    ensures r.Some? ==> IsFirstHeader(cols, IsItemHeader, r.value)
    ensures r.Some? ==> Lower(r.value) == "title" || Lower(r.value) == "item"
    ensures r.None? <==> forall c :: c in cols ==> Lower(c) != "title" && Lower(c) != "item"
  {
    FirstHeader(cols, IsItemHeader)
  }

  /** `author_col`: the first header named "authors" or "client" in any letter case, if there is one. */
  function ClientColumn(cols: seq<string>): (r: Option<string>)
    ensures r.Some? ==> IsFirstHeader(cols, IsClientHeader, r.value)
    ensures r.Some? ==> Lower(r.value) == "authors" || Lower(r.value) == "client"
    ensures r.None? <==> forall c :: c in cols ==> Lower(c) != "authors" && Lower(c) != "client"
  {
    FirstHeader(cols, IsClientHeader)
  }

  /** `subcategory_col`: the first header passing the "sub" test, else the literal "Subcategory". */
  function SubcategoryColumn(cols: seq<string>): (r: string)
    ensures (exists c :: c in cols && IsSubcategoryHeader(c)) ==> IsFirstHeader(cols, IsSubcategoryHeader, r)
    ensures (forall c :: c in cols ==> !IsSubcategoryHeader(c)) ==> r == "Subcategory"
  {
    match FirstHeader(cols, IsSubcategoryHeader)
    case Some(c) => c
    case None => "Subcategory"
  }

  /** `subsub_col`: the first header containing "sub-sub", else the literal "Sub-subcategory". */
  function SubSubcategoryColumn(cols: seq<string>): (r: string)
    ensures (exists c :: c in cols && IsSubSubcategoryHeader(c)) ==> IsFirstHeader(cols, IsSubSubcategoryHeader, r)
    ensures (forall c :: c in cols ==> !IsSubSubcategoryHeader(c)) ==> r == "Sub-subcategory"
  {
    match FirstHeader(cols, IsSubSubcategoryHeader)
    case Some(c) => c
    case None => "Sub-subcategory"
  }

  /** A header passing the "sub" test never passes the item or client test, and conversely. */
  lemma HeaderTestsDisjoint(c: string)
    ensures IsItemHeader(c) ==> !IsClientHeader(c) && !IsSubcategoryHeader(c) && !IsSubSubcategoryHeader(c)
    ensures IsClientHeader(c) ==> !IsSubcategoryHeader(c) && !IsSubSubcategoryHeader(c)
  {
    forall w | w in ["title", "item", "authors", "client"] ensures !Contains(w, "sub") && !Contains(w, "sub-sub") {
      LacksChar(w, "sub", 'b');
      LacksChar(w, "sub-sub", 'b');
    }
  }

  /** A string lacking some character of `pat` does not contain `pat`. */
  lemma {:induction false} LacksChar(s: string, pat: string, ch: char)
    requires ch in pat && ch !in s
    ensures !Contains(s, pat)
  {
    if |s| > 0 {
      assert forall x :: x in s[1..] ==> x in s;
      LacksChar(s[1..], pat, ch);
    }
  }

  /** The first `_`-delimited token of `s` starts with every `_`-free prefix of `s`. */
  lemma {:induction false} FirstTokenPrefix(w: string, s: string)
    requires w <= s && '_' !in w
    ensures w <= Split(s, '_')[0]
  {
    if w != [] {
      assert w[1..] <= s[1..];
      FirstTokenPrefix(w[1..], s[1..]);
    }
  }

  /**
   * A header whose lower-case form starts with "sub" (such as "Subcategory"
   * or "Sub-subcategory" themselves) never passes the subcategory test: its
   * first token contains "sub".
   */
  lemma SubPrefixNotSubcategory(c: string)
    requires "sub" <= Lower(c)
    ensures !IsSubcategoryHeader(c)
  {
    FirstTokenPrefix("sub", Lower(c));
  }

  /**
   * The dictionary literal of lines 35-36 for detected headers `title`,
   * `author`, `sub` and `subsub`, its entries inserted in the order written
   * (an absent item or client header contributes no entry that could match).
   */
  function BuildRenameMap(title: Option<string>, author: Option<string>, sub: string, subsub: string): (m: map<string, string>)
    requires title.Some? ==> Some(title.value) != author && title.value != sub && title.value != subsub
    requires author.Some? ==> author.value != sub && author.value != subsub
    ensures title.Some? ==> title.value in m && m[title.value] == "Item"
    ensures author.Some? ==> author.value in m && m[author.value] == "Client"
    ensures sub in m && subsub in m && m[subsub] == "Sub-subcategory"
    ensures sub != subsub ==> m[sub] == "Subcategory"
    ensures forall k :: k in m ==> Some(k) == title || Some(k) == author || k == sub || k == subsub
  {
    var m1 := if title.Some? then map[title.value := "Item"] else map[];
    var m2 := if author.Some? then m1[author.value := "Client"] else m1;
    m2[sub := "Subcategory"][subsub := "Sub-subcategory"]
  }

  /** The rename dictionary built from the detected headers of `cols`. */
  function RenameMap(cols: seq<string>): (m: map<string, string>)
    ensures ItemColumn(cols).Some? ==> ItemColumn(cols).value in m && m[ItemColumn(cols).value] == "Item"
    ensures ClientColumn(cols).Some? ==> ClientColumn(cols).value in m && m[ClientColumn(cols).value] == "Client"
    ensures SubcategoryColumn(cols) in m && SubSubcategoryColumn(cols) in m
    ensures m[SubSubcategoryColumn(cols)] == "Sub-subcategory"
    ensures SubcategoryColumn(cols) != SubSubcategoryColumn(cols) ==> m[SubcategoryColumn(cols)] == "Subcategory"
    ensures forall k :: k in m ==> Some(k) == ItemColumn(cols) || Some(k) == ClientColumn(cols) || k == SubcategoryColumn(cols) || k == SubSubcategoryColumn(cols)
  {
    DetectedDistinct(cols);
    BuildRenameMap(ItemColumn(cols), ClientColumn(cols), SubcategoryColumn(cols), SubSubcategoryColumn(cols))
  }

  /** The item and client columns differ from each other and from both subcategory columns, fallbacks included. */
  lemma DetectedDistinct(cols: seq<string>)
    ensures ItemColumn(cols).Some? ==>
      var c := ItemColumn(cols).value;
      Some(c) != ClientColumn(cols) && c != SubcategoryColumn(cols) && c != SubSubcategoryColumn(cols)
    ensures ClientColumn(cols).Some? ==>
      var c := ClientColumn(cols).value;
      c != SubcategoryColumn(cols) && c != SubSubcategoryColumn(cols)
  {
    SubColumnsNotItemOrClient(cols);
    if ItemColumn(cols).Some? {
      HeaderTestsDisjoint(ItemColumn(cols).value);
    }
  }

  /** Neither detected subcategory column, fallbacks included, passes the item or the client test. */
  lemma SubColumnsNotItemOrClient(cols: seq<string>)
    ensures !IsItemHeader(SubcategoryColumn(cols)) && !IsClientHeader(SubcategoryColumn(cols))
    ensures !IsItemHeader(SubSubcategoryColumn(cols)) && !IsClientHeader(SubSubcategoryColumn(cols))
  {
    var sub, subsub := SubcategoryColumn(cols), SubSubcategoryColumn(cols);
    if exists c :: c in cols && IsSubcategoryHeader(c) {
      HeaderTestsDisjoint(sub);
    } else {
      FallbackNotItemOrClient(sub);
    }
    if exists c :: c in cols && IsSubSubcategoryHeader(c) {
      HeaderTestsDisjoint(subsub);
    } else {
      FallbackNotItemOrClient(subsub);
    }
  }

  /** The fallback names are too long to be an item or client header. */
  lemma FallbackNotItemOrClient(c: string)
    requires c == "Subcategory" || c == "Sub-subcategory"
    ensures !IsItemHeader(c) && !IsClientHeader(c)
  {
    assert |Lower(c)| == |c| >= 11;
  }

  /** `df.rename(columns=m)`: a header that is a key of `m` gets its new name, the others are kept. */
  function Renamed(cols: seq<string>, m: map<string, string>): seq<string> {
    seq(|cols|, i requires 0 <= i < |cols| => if cols[i] in m then m[cols[i]] else cols[i])
  }

  /**
   * The header list after lines 28-36. Every occurrence of the detected item
   * and client headers becomes "Item" and "Client"; the detected
   * sub-subcategory header becomes "Sub-subcategory", and the detected
   * subcategory header "Subcategory" unless the same header was detected for
   * both, when the later entry of the dictionary wins; every other header is
   * unchanged.
   */
  function Normalize(cols: seq<string>): (r: seq<string>)
    ensures |r| == |cols|
    ensures forall i :: 0 <= i < |cols| && Some(cols[i]) == ItemColumn(cols) ==> r[i] == "Item"
    ensures forall i :: 0 <= i < |cols| && Some(cols[i]) == ClientColumn(cols) ==> r[i] == "Client"
    ensures forall i :: 0 <= i < |cols| && cols[i] == SubSubcategoryColumn(cols) ==> r[i] == "Sub-subcategory"
    ensures forall i :: 0 <= i < |cols| && cols[i] == SubcategoryColumn(cols) && cols[i] != SubSubcategoryColumn(cols) ==> r[i] == "Subcategory"
    ensures forall i :: (0 <= i < |cols| && Some(cols[i]) != ItemColumn(cols) && Some(cols[i]) != ClientColumn(cols)
                         && cols[i] != SubcategoryColumn(cols) && cols[i] != SubSubcategoryColumn(cols)) ==> r[i] == cols[i]
  {
    Renamed(cols, RenameMap(cols))
  }
}
