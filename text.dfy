/**
 * The string operations the program relies on, restricted to ASCII:
 * `str.lower`, `str.strip`, `str.split(sep)`, substring tests (`in`) and
 * Python's ordering of strings (used by `sorted`).
 */
module Text {

  /** The ASCII characters Python's `str.isspace` accepts: tab to carriage return, the four separators 0x1C-0x1F, and space. */
  predicate IsSpace(c: char) {
    (9 <= c as int <= 13) || (28 <= c as int <= 32)
  }

  predicate AllSpace(s: string) {
    forall k :: 0 <= k < |s| ==> IsSpace(s[k])
  }

  /** Neither end of `s` is whitespace. */
  predicate IsStripped(s: string) {
    s == [] || (!IsSpace(s[0]) && !IsSpace(s[|s| - 1]))
  }

  function LowerChar(c: char): char {
    if 'A' <= c <= 'Z' then (c as int + 32) as char else c
  }

  /** `str.lower` on ASCII: upper-case letters become lower-case, everything else is kept. */
  function Lower(s: string): (r: string)
    ensures |r| == |s|
    ensures forall i :: 0 <= i < |s| ==> !('A' <= r[i] <= 'Z')
    ensures forall i :: 0 <= i < |s| && 'A' <= s[i] <= 'Z' ==> r[i] as int == s[i] as int + 32
    ensures forall i :: 0 <= i < |s| && !('A' <= s[i] <= 'Z') ==> r[i] == s[i]
  {
    seq(|s|, i requires 0 <= i < |s| => LowerChar(s[i]))
  }

  /** Removes the longest whitespace prefix. */
  function StripLeft(s: string): (r: string)
  {
    if |s| > 0 && IsSpace(s[0]) then StripLeft(s[1..]) else s
  }

  lemma {:induction false} StripLeftSpec(s: string)
    ensures var r := StripLeft(s);
      |r| <= |s| && r == s[|s| - |r|..] && AllSpace(s[..|s| - |r|]) && (r == [] || !IsSpace(r[0]))
  {
    if |s| > 0 && IsSpace(s[0]) {
      var t := s[1..];
      StripLeftSpec(t);
      var n := |s| - |StripLeft(t)|;
      assert t[|t| - |StripLeft(t)|..] == s[n..];
      assert s[..n] == [s[0]] + t[..|t| - |StripLeft(t)|];
    }
  }

  /** Removes the longest whitespace suffix. */
  function StripRight(s: string): (r: string)
  {
    if |s| > 0 && IsSpace(s[|s| - 1]) then StripRight(s[..|s| - 1]) else s
  }

  lemma {:induction false} StripRightSpec(s: string)
    ensures var r := StripRight(s);
      |r| <= |s| && r == s[..|r|] && AllSpace(s[|r|..]) && (r == [] || !IsSpace(r[|r| - 1]))
  {
    if |s| > 0 && IsSpace(s[|s| - 1]) {
      StripRightSpec(s[..|s| - 1]);
      var r := StripRight(s[..|s| - 1]);
      assert s[..|s| - 1][|r|..] + [s[|s| - 1]] == s[|r|..];
    }
  }

  /**
   * `str.strip()`: `s` is `r` with a whitespace prefix and a whitespace suffix
   * added, and `r` has no whitespace at either end.
   */
  function Strip(s: string): (r: string)
    ensures IsStripped(r)
    ensures exists pre, suf :: AllSpace(pre) && AllSpace(suf) && s == pre + r + suf
  {
    var l := StripLeft(s);
    var r := StripRight(l);
    StripDecomposes(s, l, r);
    r
  }

  /** `s` is the whitespace `StripLeft` removes, then `StripRight(StripLeft(s))`, then the whitespace `StripRight` removes. */
  lemma StripDecomposes(s: string, l: string, r: string)
    requires l == StripLeft(s) && r == StripRight(l)
    ensures |l| <= |s| && |r| <= |l| && IsStripped(r)
    ensures AllSpace(s[..|s| - |l|]) && AllSpace(l[|r|..]) && s == s[..|s| - |l|] + r + l[|r|..]
  {
    StripLeftSpec(s);
    StripRightSpec(l);
    SliceParts(s, l, r);
  }

  lemma SliceParts(s: string, l: string, r: string)
    requires |l| <= |s| && l == s[|s| - |l|..] && |r| <= |l| && r == l[..|r|]
    ensures s == s[..|s| - |l|] + r + l[|r|..]
  {
    assert s == s[..|s| - |l|] + l;
    assert l == r + l[|r|..];
  }

  /** The whitespace that `Strip` removes from each end of `s`. */
  lemma StripParts(s: string) returns (pre: string, suf: string)
    ensures AllSpace(pre) && AllSpace(suf) && s == pre + Strip(s) + suf
  {
    var l := StripLeft(s);
    var r := StripRight(l);
    StripDecomposes(s, l, r);
    pre, suf := s[..|s| - |l|], l[|r|..];
  }

  /** A string without whitespace at its ends is its own strip. */
  lemma StripStripped(s: string)
    requires IsStripped(s)
    ensures Strip(s) == s
  {
  }

  /** Stripping a string padded with whitespace on both sides gives the same as stripping it bare. */
  lemma {:induction false} StripPadded(a: string, s: string, b: string)
    requires AllSpace(a) && AllSpace(b)
    ensures Strip(a + s + b) == Strip(s)
  {
    StripLeftPadded(a, s + b);
    assert a + s + b == a + (s + b);
    StripLeftSuffix(s, b);
    var l := StripLeft(s);
    if l != [] {
      StripRightPadded(l, b);
    }
  }

  lemma {:induction false} StripLeftPadded(a: string, s: string)
    requires AllSpace(a)
    ensures StripLeft(a + s) == StripLeft(s)
  {
    if a != [] {
      assert (a + s)[0] == a[0];
      assert (a + s)[1..] == a[1..] + s;
      StripLeftPadded(a[1..], s);
    } else {
      assert a + s == s;
    }
  }

  lemma {:induction false} StripLeftSuffix(s: string, b: string)
    requires AllSpace(b)
    ensures StripLeft(s + b) == if StripLeft(s) == [] then [] else StripLeft(s) + b
  {
    if s == [] {
      assert s + b == b;
      StripLeftAll(b);
    } else {
      assert (s + b)[0] == s[0];
      if IsSpace(s[0]) {
        assert (s + b)[1..] == s[1..] + b;
        StripLeftSuffix(s[1..], b);
      }
    }
  }

  lemma {:induction false} StripLeftAll(b: string)
    requires AllSpace(b)
    ensures StripLeft(b) == []
  {
    if b != [] {
      StripLeftAll(b[1..]);
    }
  }

  lemma {:induction false} StripRightPadded(s: string, b: string)
    requires AllSpace(b)
    ensures StripRight(s + b) == StripRight(s)
    decreases |b|
  {
    if b != [] {
      var n := |b| - 1;
      assert (s + b)[..|s + b| - 1] == s + b[..n];
      StripRightPadded(s, b[..n]);
    } else {
      assert s + b == s;
    }
  }

  /** Pieces joined back together with `sep` between consecutive ones (`sep.join(parts)`). */
  function Join(parts: seq<string>, sep: char): string {
    if |parts| == 0 then ""
    else if |parts| == 1 then parts[0]
    else parts[0] + [sep] + Join(parts[1..], sep)
  }

  /** Prefixing the first piece prefixes the joined string. */
  lemma JoinFront(a: string, parts: seq<string>, sep: char)
    requires |parts| >= 1
    ensures Join([a + parts[0]] + parts[1..], sep) == a + Join(parts, sep)
  {
    var q := [a + parts[0]] + parts[1..];
    assert q[0] == a + parts[0] && q[1..] == parts[1..];
    if |parts| > 1 {
      assert Join(q, sep) == q[0] + [sep] + Join(q[1..], sep);
    }
  }

  /** Suffixing the last piece suffixes the joined string. */
  lemma {:induction false} JoinBack(parts: seq<string>, b: string, sep: char)
    requires |parts| >= 1
    ensures Join(parts[..|parts| - 1] + [parts[|parts| - 1] + b], sep) == Join(parts, sep) + b
  {
    var n := |parts|;
    var q := parts[..n - 1] + [parts[n - 1] + b];
    if n == 1 {
      assert q == [parts[0] + b];
    } else {
      var tail := parts[1..];
      JoinBack(tail, b, sep);
      assert q[0] == parts[0];
      assert q[1..] == tail[..|tail| - 1] + [tail[|tail| - 1] + b];
    }
  }

  /**
   * `s.split(sep)`: at least one piece, no piece contains `sep`, and joining
   * the pieces with `sep` gives `s` back.
   */
  function Split(s: string, sep: char): (parts: seq<string>)
    ensures |parts| >= 1
    ensures forall i :: 0 <= i < |parts| ==> sep !in parts[i]
    ensures Join(parts, sep) == s
  {
    if |s| == 0 then [""]
    else
      var rest := Split(s[1..], sep);
      if s[0] == sep then
        assert [""] + rest == [""] + rest;
        assert ([""] + rest)[1..] == rest;
        [""] + rest
      else
        var parts := [[s[0]] + rest[0]] + rest[1..];
        assert parts[1..] == rest[1..];
        assert s == [s[0]] + s[1..];
        parts
  }

  /** Splitting undoes joining, for pieces that do not contain the separator. */
  lemma {:induction false} SplitJoin(parts: seq<string>, sep: char)
    requires |parts| >= 1
    requires forall i :: 0 <= i < |parts| ==> sep !in parts[i]
    ensures Split(Join(parts, sep), sep) == parts
  {
    if |parts| == 1 {
      SplitWithout(parts[0], [], sep);
      assert parts[0] + [] == parts[0];
    } else {
      SplitJoin(parts[1..], sep);
      SplitThrough(parts[0], Join(parts[1..], sep), sep);
      assert parts == [parts[0]] + parts[1..];
    }
  }

  /** A piece without `sep` stays whole: the first piece of `w + rest` when `rest` is empty. */
  lemma {:induction false} SplitWithout(w: string, rest: string, sep: char)
    requires sep !in w && rest == []
    ensures Split(w + rest, sep) == [w]
  {
    if w != [] {
      assert (w + rest)[1..] == w[1..] + rest;
      SplitWithout(w[1..], rest, sep);
      assert w == [w[0]] + w[1..];
    }
  }

  lemma {:induction false} SplitThrough(w: string, rest: string, sep: char)
    requires sep !in w
    ensures Split(w + [sep] + rest, sep) == [w] + Split(rest, sep)
  {
    if w == [] {
      assert w + [sep] + rest == [sep] + rest;
      assert ([sep] + rest)[1..] == rest;
    } else {
      assert (w + [sep] + rest)[1..] == w[1..] + [sep] + rest;
      SplitThrough(w[1..], rest, sep);
      assert w == [w[0]] + w[1..];
    }
  }

  /** Python's substring test `pat in s`. */
  predicate Contains(s: string, pat: string) {
    pat <= s || (|s| > 0 && Contains(s[1..], pat))
  }

  /** `pat` occurs in `s` starting at offset `i`. */
  predicate OccursAt(s: string, pat: string, i: nat) {
    i + |pat| <= |s| && s[i..i + |pat|] == pat
  }

  /** `pat in s` holds exactly when `pat` occurs in `s` at some offset. */
  lemma {:induction false} ContainsSpec(s: string, pat: string)
    ensures Contains(s, pat) <==> exists i: nat :: OccursAt(s, pat, i)
  {
    if pat <= s {
      assert OccursAt(s, pat, 0);
    } else if |s| > 0 {
      ContainsSpec(s[1..], pat);
      if exists i: nat :: OccursAt(s[1..], pat, i) {
        var i: nat :| OccursAt(s[1..], pat, i);
        assert s[i + 1..i + 1 + |pat|] == s[1..][i..i + |pat|];
        assert OccursAt(s, pat, i + 1);
      }
      if exists i: nat :: OccursAt(s, pat, i) {
        var i: nat :| OccursAt(s, pat, i);
        if i > 0 {
          assert s[1..][i - 1..i - 1 + |pat|] == s[i..i + |pat|];
          assert OccursAt(s[1..], pat, i - 1);
        }
      }
    }
  }

  /** Python's `a < b` on strings: lexicographic by code point, a proper prefix first. */
  predicate Less(a: string, b: string) {
    if |a| == 0 then |b| > 0
    else if |b| == 0 then false
    else if a[0] != b[0] then a[0] < b[0]
    else Less(a[1..], b[1..])
  }

  /** `a` and `b` agree before offset `k`, where `a` has the smaller character. */
  predicate FirstSmaller(a: string, b: string, k: nat) {
    k < |a| && k < |b| && a[..k] == b[..k] && a[k] < b[k]
  }

  /** `Less` is the lexicographic order: `a` is a proper prefix of `b`, or they agree up to a first smaller character of `a`. */
  lemma {:induction false} LessSpec(a: string, b: string)
    ensures Less(a, b) <==> a < b || exists k: nat :: FirstSmaller(a, b, k)
  {
    if |a| > 0 && |b| > 0 {
      if a[0] == b[0] {
        LessSpec(a[1..], b[1..]);
        FirstSmallerTail(a, b);
        assert a < b <==> a[1..] < b[1..] by {
          assert a == [a[0]] + a[1..] && b == [b[0]] + b[1..];
        }
      } else {
        FirstSmallerHead(a, b);
      }
    }
  }

  lemma FirstSmallerHead(a: string, b: string)
    requires |a| > 0 && |b| > 0 && a[0] != b[0]
    ensures (exists k: nat :: FirstSmaller(a, b, k)) <==> a[0] < b[0]
  {
    if a[0] < b[0] {
      assert a[..0] == b[..0];
      assert FirstSmaller(a, b, 0);
    }
    forall k: nat | FirstSmaller(a, b, k) ensures a[0] < b[0] {
      if k > 0 {
        assert a[..k][0] == b[..k][0];
      }
    }
  }

  lemma FirstSmallerTail(a: string, b: string)
    requires |a| > 0 && |b| > 0 && a[0] == b[0]
    ensures (exists k: nat :: FirstSmaller(a, b, k)) <==> exists k: nat :: FirstSmaller(a[1..], b[1..], k)
  {
    forall k: nat | FirstSmaller(a[1..], b[1..], k) ensures FirstSmaller(a, b, k + 1) {
      assert a[..k + 1] == [a[0]] + a[1..][..k] && b[..k + 1] == [b[0]] + b[1..][..k];
    }
    forall k: nat | FirstSmaller(a, b, k) ensures k > 0 && FirstSmaller(a[1..], b[1..], k - 1) {
      assert a[1..][..k - 1] == a[..k][1..] && b[1..][..k - 1] == b[..k][1..];
    }
  }

  lemma {:induction false} LessIrreflexive(a: string)
    ensures !Less(a, a)
  {
    if |a| > 0 {
      LessIrreflexive(a[1..]);
    }
  }

  lemma {:induction false} LessTransitive(a: string, b: string, c: string)
    requires Less(a, b) && Less(b, c)
    ensures Less(a, c)
  {
    if |a| > 0 && |b| > 0 && |c| > 0 && a[0] == b[0] && b[0] == c[0] {
      LessTransitive(a[1..], b[1..], c[1..]);
    }
  }

  lemma {:induction false} LessTotal(a: string, b: string)
    ensures a == b || Less(a, b) || Less(b, a)
  {
    if |a| > 0 && |b| > 0 && a[0] == b[0] {
      LessTotal(a[1..], b[1..]);
      assert a == [a[0]] + a[1..] && b == [b[0]] + b[1..];
    }
  }

  lemma {:induction false} LessAsymmetric(a: string, b: string)
    ensures !(Less(a, b) && Less(b, a))
  {
    if |a| > 0 && |b| > 0 && a[0] == b[0] {
      LessAsymmetric(a[1..], b[1..]);
    }
  }
}
